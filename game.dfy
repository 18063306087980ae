/**
 The game object of the client: its grid, score, line count, current and
 next piece, and the two events it sends to the server. Grid operations
 update the `grid` field step by step as the loops of game.js do and are
 proved to produce the grids that `Board` specifies.
 */
module Game {
  import opened Wrappers
  import opened Board
  import opened ClearScan

  /** Events the game object sends to the server. */
  datatype ClientMsg = LinesClearedMsg(gameId: string, lineCount: int) | GameOverMsg(gameId: string)

  /** What clearing `k` rows at once sends: a penalty of floor(k/2) rows, only for two or more rows. */
  function LinesClearedNotice(gameId: string, k: nat): (notice: seq<ClientMsg>)
    ensures forall m :: m in notice ==> m.LinesClearedMsg? && m.gameId == gameId
  {
    if k >= 2 then [LinesClearedMsg(gameId, k / 2)] else []
  }

  /** A single cleared row sends nothing; three send one penalty row; four send two. */
  lemma PenaltyScale(gameId: string)
    ensures LinesClearedNotice(gameId, 0) == [] && LinesClearedNotice(gameId, 1) == []
    ensures LinesClearedNotice(gameId, 2) == [LinesClearedMsg(gameId, 1)]
    ensures LinesClearedNotice(gameId, 3) == [LinesClearedMsg(gameId, 1)]
    ensures LinesClearedNotice(gameId, 4) == [LinesClearedMsg(gameId, 2)]
  {
  }

  /** A notice is sent iff at least two rows were cleared, and it never asks for more than half of them. */
  lemma PenaltyNoticeBounds(gameId: string, k: nat)
    ensures |LinesClearedNotice(gameId, k)| == if k >= 2 then 1 else 0
    ensures forall m :: m in LinesClearedNotice(gameId, k) ==> 1 <= m.lineCount && 2 * m.lineCount <= k
  {
  }

  /** The position one row further down. */
  function Down(p: Pos): Pos
  {
    p.(y := p.y + 1)
  }

  class Tetris {
    const gameId: string
    var grid: Grid
    var score: int
    var lines: int
    var gameOver: bool
    var piece: Piece
    var nextPiece: Piece
    var outbox: seq<ClientMsg>

    /**
     The grid has at least ROWS rows (penalties never shrink it) of COLS cells,
     the current piece lies on the grid, and the next piece is a fresh spawn.
     */
    ghost predicate Valid()
      reads this
    {
      && |grid| >= ROWS && Rect(grid, COLS)
      && Fits(grid, piece.shape, piece.pos)
      && 1 <= nextPiece.kind <= 7 && nextPiece == SpawnPiece(nextPiece.kind)
    }

    /** The constructor's `reset()`; the two kinds stand for the two random picks. */
    constructor (gameId: string, firstKind: int, nextKind: int)
      requires 1 <= firstKind <= 7 && 1 <= nextKind <= 7
      ensures Valid()
      ensures this.gameId == gameId
      ensures grid == EmptyGrid() && score == 0 && lines == 0 && !gameOver
      ensures piece == SpawnPiece(firstKind) && nextPiece == SpawnPiece(nextKind)
      ensures outbox == []
    {
      this.gameId := gameId;
      grid := EmptyGrid();
      score, lines, gameOver := 0, 0, false;
      piece := SpawnPiece(firstKind);
      nextPiece := SpawnPiece(nextKind);
      outbox := [];
      new;
      SpawnFits(grid, firstKind);
    }

    /** `collide(shape, pos)`: the row-by-row scan that returns at the first blocked cell. */
    method Collide(shape: Shape, pos: Pos) returns (hit: bool)
      ensures hit == Collides(grid, shape, pos)
    {
      var y := 0;
      while y < |shape|
        invariant 0 <= y <= |shape|
        invariant forall sy, sx :: 0 <= sy < y && Covers(shape, sy, sx) ==> Lookup(grid, sy + pos.y, sx + pos.x) == Some(0)
      {
        var x := 0;
        while x < |shape[y]|
          invariant 0 <= x <= |shape[y]|
          invariant forall sy, sx :: 0 <= sy < y && Covers(shape, sy, sx) ==> Lookup(grid, sy + pos.y, sx + pos.x) == Some(0)
          invariant forall sx :: 0 <= sx < x && Covers(shape, y, sx) ==> Lookup(grid, y + pos.y, sx + pos.x) == Some(0)
        {
          if shape[y][x] != 0 && Lookup(grid, y + pos.y, x + pos.x) != Some(0) {
            assert Covers(shape, y, x);
            return true;
          }
          x := x + 1;
        }
        y := y + 1;
      }
      return false;
    }

    /** `merge(shape, pos)`: write every filled shape cell into the grid. */
    method Merge(shape: Shape, pos: Pos)
      requires Fits(grid, shape, pos)
      modifies this`grid
      ensures grid == Merged(old(grid), shape, pos)
    {
      ghost var g := grid;
      var y := 0;
      while y < |shape|
        invariant 0 <= y <= |shape|
        invariant |grid| == |g|
        invariant forall r :: 0 <= r < |g| ==>
          grid[r] == if 0 <= r - pos.y < y then MergedRow(g[r], shape[r - pos.y], pos.x) else g[r]
      {
        forall x | Covers(shape, y, x) ensures Lookup(grid, y + pos.y, x + pos.x).Some? {
          assert Lookup(g, y + pos.y, x + pos.x).Some?;
        }
        MergeShapeRow(shape, pos, y);
        y := y + 1;
      }
    }

    /** The inner loop of `merge`: write the filled cells of shape row y into grid row y + pos.y. */
    method MergeShapeRow(shape: Shape, pos: Pos, y: int)
      requires 0 <= y < |shape|
      requires forall x :: Covers(shape, y, x) ==> Lookup(grid, y + pos.y, x + pos.x).Some?
      modifies this`grid
      ensures |grid| == |old(grid)|
      ensures forall r :: 0 <= r < |grid| ==>
        grid[r] == if r == y + pos.y then MergedRow(old(grid)[r], shape[y], pos.x) else old(grid)[r]
    {
      ghost var before := grid;
      var r0 := y + pos.y;
      var x := 0;
      while x < |shape[y]|
        invariant 0 <= x <= |shape[y]|
        invariant |grid| == |before|
        invariant forall r :: 0 <= r < |before| && r != r0 ==> grid[r] == before[r]
        invariant 0 <= r0 < |before| ==> grid[r0] == MergedRow(before[r0], shape[y][..x], pos.x)
      {
        if shape[y][x] != 0 {
          assert Covers(shape, y, x);
          MergedRowStep(before[r0], shape[y], x, pos.x);
          grid := grid[r0 := grid[r0][x + pos.x := shape[y][x]]];
        } else if 0 <= r0 < |before| {
          MergedRowStep(before[r0], shape[y], x, pos.x);
        }
        x := x + 1;
      }
      assert shape[y][..x] == shape[y];
    }

    /**
     `clearLines()`: clear the full rows (see `ScanRows`), then update the score,
     the line count and the penalty notice.
     */
    method ClearLines()
      requires forall r :: 0 <= r < |grid| ==> |grid[r]| > 0
      modifies this`grid, this`score, this`lines, this`outbox
      ensures grid == Cleared(old(grid))
      ensures score == old(score) + 100 * |FullRows(old(grid))|
      ensures lines == old(lines) + |FullRows(old(grid))|
      ensures outbox == old(outbox) + LinesClearedNotice(gameId, |FullRows(old(grid))|)
    {
      var rows, linesCleared := ScanRows(grid);
      grid := rows;
      if linesCleared > 0 {
        score := score + linesCleared * 100;
        lines := lines + linesCleared;
        if linesCleared >= 2 {
          outbox := outbox + [LinesClearedMsg(gameId, linesCleared / 2)];
        }
      }
    }

    /** `addPenaltyLines(count)`: drop `count` rows from the top, push `count` penalty rows. */
    method AddPenaltyLines(count: int)
      modifies this`grid
      ensures grid == PenaltyShifted(old(grid), count)
      ensures old(Valid()) ==> Valid()
    {
      ghost var g := grid;
      grid := grid[SpliceCount(count, |grid|)..];
      ghost var top := grid;
      var i := 0;
      while i < count
        invariant 0 <= i && (count >= 0 ==> i <= count) && (count < 0 ==> i == 0)
        invariant grid == top + PenaltyRows(i)
      {
        grid := grid + [PenaltyRow()];
        i := i + 1;
      }
      if old(Valid()) {
        PenaltyShiftedDims(g, count);
        FitsTaller(g, grid, COLS, piece.shape, piece.pos);
      }
    }

    /** `move(dir)`: shift sideways, and shift back if the piece would collide. */
    method Move(dir: int)
      requires Valid()
      modifies this`piece
      ensures Valid()
      ensures var moved := Pos(old(piece.pos.x) + dir, old(piece.pos.y));
        if Collides(grid, piece.shape, moved) then piece == old(piece) else piece == old(piece).(pos := moved)
    {
      piece := piece.(pos := piece.pos.(x := piece.pos.x + dir));
      var hit := Collide(piece.shape, piece.pos);
      if hit {
        piece := piece.(pos := piece.pos.(x := piece.pos.x - dir));
      } else {
        NoCollisionFits(grid, piece.shape, piece.pos);
      }
    }

    /**
     `drop()` with `nextKind` standing for the random pick of the new next piece:
     move down one row; if that collides, land the piece where it was, clear
     rows, promote the next piece and end the game if it collides at once.
     */
    method Drop(nextKind: int) returns (alive: bool)
      requires Valid()
      requires 1 <= nextKind <= 7
      modifies this`grid, this`score, this`lines, this`gameOver, this`piece, this`nextPiece, this`outbox
      ensures Valid()
      ensures !Collides(old(grid), old(piece.shape), Down(old(piece.pos))) ==>
        && alive
        && piece == old(piece).(pos := Down(old(piece.pos)))
        && grid == old(grid) && nextPiece == old(nextPiece)
        && score == old(score) && lines == old(lines) && gameOver == old(gameOver) && outbox == old(outbox)
      ensures Collides(old(grid), old(piece.shape), Down(old(piece.pos))) ==>
        var landed := Merged(old(grid), old(piece.shape), old(piece.pos));
        var k := |FullRows(landed)|;
        && grid == Cleared(landed)
        && score == old(score) + 100 * k && lines == old(lines) + k
        && piece == old(nextPiece) && nextPiece == SpawnPiece(nextKind)
        && alive == !Collides(grid, piece.shape, piece.pos)
        && gameOver == (old(gameOver) || !alive)
        && outbox == old(outbox) + LinesClearedNotice(gameId, k) + (if alive then [] else [GameOverMsg(gameId)])
    {
      ghost var landing := piece;
      piece := piece.(pos := piece.pos.(y := piece.pos.y + 1));
      var hit := Collide(piece.shape, piece.pos);
      if hit {
        piece := piece.(pos := piece.pos.(y := piece.pos.y - 1));
        assert piece == landing;
        alive := Settle(nextKind);
      } else {
        NoCollisionFits(grid, piece.shape, piece.pos);
        alive := true;
      }
    }

    /**
     The blocked case of `drop()`: land the piece where it lies, clear rows,
     promote the next piece and end the game if it collides at once.
     */
    method Settle(nextKind: int) returns (alive: bool)
      requires Valid()
      requires 1 <= nextKind <= 7
      modifies this`grid, this`score, this`lines, this`gameOver, this`piece, this`nextPiece, this`outbox
      ensures Valid()
      ensures
        var landed := Merged(old(grid), old(piece).shape, old(piece).pos);
        var k := |FullRows(landed)|;
        && grid == Cleared(landed)
        && score == old(score) + 100 * k && lines == old(lines) + k
        && piece == old(nextPiece) && nextPiece == SpawnPiece(nextKind)
        && alive == !Collides(grid, piece.shape, piece.pos)
        && gameOver == (old(gameOver) || !alive)
        && outbox == old(outbox) + LinesClearedNotice(gameId, k) + (if alive then [] else [GameOverMsg(gameId)])
    {
      Land();
      alive := Promote(nextKind);
    }

    /** The landing half of `drop()`: merge the piece where it lies, then clear rows. */
    method Land()
      requires |grid| >= ROWS && Rect(grid, COLS) && Fits(grid, piece.shape, piece.pos)
      modifies this`grid, this`score, this`lines, this`outbox
      ensures |grid| == |old(grid)| && Rect(grid, COLS)
      ensures var landed := Merged(old(grid), piece.shape, piece.pos);
        var k := |FullRows(landed)|;
        && grid == Cleared(landed)
        && score == old(score) + 100 * k && lines == old(lines) + k
        && outbox == old(outbox) + LinesClearedNotice(gameId, k)
    {
      MergedDims(grid, piece.shape, piece.pos, COLS);
      Merge(piece.shape, piece.pos);
      ClearedDims(grid, COLS);
      ClearLines();
    }

    /** The spawning half of `drop()`: promote the next piece; the game ends if it collides at once. */
    method Promote(nextKind: int) returns (alive: bool)
      requires |grid| >= ROWS && Rect(grid, COLS)
      requires 1 <= nextPiece.kind <= 7 && nextPiece == SpawnPiece(nextPiece.kind)
      requires 1 <= nextKind <= 7
      modifies this`piece, this`nextPiece, this`gameOver, this`outbox
      ensures Valid()
      ensures piece == old(nextPiece) && nextPiece == SpawnPiece(nextKind)
      ensures alive == !Collides(grid, piece.shape, piece.pos)
      ensures gameOver == (old(gameOver) || !alive)
      ensures outbox == old(outbox) + (if alive then [] else [GameOverMsg(gameId)])
    {
      piece := nextPiece;
      nextPiece := SpawnPiece(nextKind);
      SpawnFits(grid, piece.kind);
      var over := Collide(piece.shape, piece.pos);
      if over {
        gameOver := true;
        outbox := outbox + [GameOverMsg(gameId)];
      }
      alive := !over;
    }
  }

  // ---------------------------------------------------------------- clearLines

  /** The inner loop of `clearLines`: does the row have no empty cell? */
  method RowIsFull(row: Row) returns (full: bool)
    ensures full == Full(row)
  {
    var x := 0;
    while x < |row|
      invariant 0 <= x <= |row|
      invariant forall c :: 0 <= c < x ==> row[c] != 0
    {
      if row[x] == 0 {
        return false;
      }
      x := x + 1;
    }
    return true;
  }

  /**
   The row loop of `clearLines`: scan from the bottom; a full row is cut out,
   emptied and put on top, and the same index is examined again.
   */
  method ScanRows(g: Grid) returns (rows: Grid, linesCleared: nat)
    requires forall r :: 0 <= r < |g| ==> |g[r]| > 0
    ensures rows == Cleared(g) && linesCleared == |FullRows(g)|
  {
    rows := g;
    ghost var q: nat := |g|;
    linesCleared := 0;
    var y := |rows| - 1;
    ScanStart(g);
    while y >= 0
      invariant Scanning(g, q, linesCleared, rows, y)
      decreases q + y + 1
    {
      ScanView(g, q, linesCleared, rows, y);
      var full := RowIsFull(rows[y]);
      if full {
        ScanFull(g, q, linesCleared, rows, y);
        var row := Blank(rows[y]);
        rows := [row] + rows[..y] + rows[y + 1..];
        linesCleared := linesCleared + 1;
        q := q - 1;
        y := y + 1;
      } else if q > 0 {
        ScanKeep(g, q, linesCleared, rows, y);
        q := q - 1;
      }
      y := y - 1;
    }
    ScanDone(g, linesCleared, rows);
  }

  // ---------------------------------------------------------------- steps of merge

  /** Writing shape cell x advances the merged prefix of a row by one cell. */
  lemma MergedRowStep(row: Row, cells: seq<int>, x: nat, px: int)
    requires x < |cells|
    requires cells[x] != 0 ==> 0 <= x + px < |row|
    ensures MergedRow(row, cells[..x + 1], px)
         == if cells[x] != 0 then MergedRow(row, cells[..x], px)[x + px := cells[x]] else MergedRow(row, cells[..x], px)
  {
  }
}
