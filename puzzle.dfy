/** The falling piece: its shape, anchor and flags, the collision queries,
    the moves, spawning, and the lock step that hands its blocks to the area. */
module Puzzles {
  import Grid
  import Pieces
  import Areas
  import Counters
  import Steps

  class Puzzle {
    const area: Areas.Area
    const stats: Counters.Stats
    /** The shape table, indexed by piece type. */
    const puzzles: seq<Pieces.Matrix>
    /** The current piece type, 0..6 (the source's `type`). */
    var pieceType: int
    /** The queued piece type. */
    var nextType: int
    var running: bool
    var stopped: bool
    /** The piece matrix: 1 for a block, 0 for none. */
    var board: Pieces.Matrix
    /** Column and row of the matrix's top-left cell on the area. */
    var x: int
    var y: int

    function State(): (s: Steps.PieceState)
      reads this
    {
      Steps.PieceState(pieceType, nextType, running, stopped, board, x, y)
    }

    /** Everything the piece code relies on except the position. */
    ghost predicate Consistent()
      reads this, area, area.board
    {
      area.Valid() && area.width >= 4 && area.height >= 2 &&
      Pieces.ShapeTable(puzzles) && Steps.WellFormed(State())
    }

    /** Consistent, and every block of the piece lies within the columns of
        the area and above its floor. */
    ghost predicate Valid()
      reads this, area, area.board
    {
      Consistent() && Pieces.InBounds(area.height, area.width, board, x, y)
    }

    /** new Puzzle(tetris, area): `first` plays the role of the random type
        drawn by the constructor, `next` the one drawn by its reset. */
    constructor (a: Areas.Area, s: Counters.Stats, first: int, next: int)
      requires a.Valid() && a.width >= 4 && a.height >= 2
      requires 0 <= first < 7 && 0 <= next < 7
      ensures Valid() && area == a && stats == s
      ensures puzzles == Pieces.Shapes()
      ensures State() == Steps.ResetState(first, next)
    {
      Pieces.ShapesTable();
      area, stats, puzzles := a, s, Pieces.Shapes();
      pieceType, nextType := first, next;
      running, stopped := false, false;
      board, x, y := [], 0, 0;
    }

    /** Puzzle.reset: the queued type becomes current and `next` (the new
        random draw) is queued. */
    method Reset(next: int)
      requires Consistent() && 0 <= next < 7
      modifies this
      ensures Valid()
      ensures State() == Steps.ResetState(old(nextType), next)
    {
      pieceType := nextType;
      nextType := next;
      running := false;
      stopped := false;
      board := [];
      x := 0;
      y := 0;
    }

    /** Puzzle.stop. */
    method Stop()
      requires Consistent()
      modifies this
      ensures Consistent()
      ensures State() == old(State()).(running := false)
    {
      running := false;
    }

    /** Puzzle.createEmptyPuzzle: `rows` rows of `cols` zeros. */
    method CreateEmptyPuzzle(rows: nat, cols: nat) returns (p: Pieces.Matrix)
      ensures p == Grid.Empty(rows, cols)
    {
      p := [];
      var y2 := 0;
      while y2 < rows
        invariant 0 <= y2 <= rows
        invariant Grid.IsRect(p, y2, cols)
        invariant forall r, c :: 0 <= r < y2 && 0 <= c < cols ==> p[r][c] == 0
      {
        p := p + [[]];
        var x2 := 0;
        while x2 < cols
          invariant 0 <= x2 <= cols
          invariant |p| == y2 + 1 && |p[y2]| == x2
          invariant forall r :: 0 <= r < y2 ==> |p[r]| == cols
          invariant forall r, c :: 0 <= r < y2 && 0 <= c < cols ==> p[r][c] == 0
          invariant forall c :: 0 <= c < x2 ==> p[y2][c] == 0
        {
          p := p[y2 := p[y2] + [0]];
          x2 := x2 + 1;
        }
        y2 := y2 + 1;
      }
      Grid.SameCells(p, Grid.Empty(rows, cols), rows, cols);
    }

    // -------------------------------------------------------------------
    // Spawning

    /** Puzzle.mayPlace: scanning the shape of the current type bottom-up,
        the blocks of its lowest occupied row and of the row above are tested
        against area row 1 at the spawn column; the scan then stops. */
    method MayPlace() returns (ok: bool)
      requires Valid()
      ensures ok == Pieces.MayPlaceAt(area.cells, area.width, puzzles[pieceType],
                                      Pieces.SpawnX(area.width, |puzzles[pieceType]|))
    {
      var puzzle := puzzles[pieceType];
      var n := |puzzle|;
      ghost var g := area.cells;
      ghost var low := Pieces.LowestRow(puzzle);
      var areaStartX := Pieces.SpawnX(area.width, |puzzle[0]|);
      var areaStartY := 1;
      var lineFound := false;
      var lines := 0;
      var yy := n - 1;
      while yy >= 0
        invariant -1 <= yy < n
        invariant lineFound == (low > yy)
        invariant lines == (if low > yy then low - yy else 0) && lines <= 1
        invariant forall r, c :: yy < r && Pieces.Filled(puzzle, r, c) ==> g[1][areaStartX + c] == 0
      {
        var xx := 0;
        while xx < n
          invariant 0 <= xx <= n
          invariant lineFound == (low > yy || exists c :: 0 <= c < xx && Pieces.Filled(puzzle, yy, c))
          invariant forall c :: 0 <= c < xx && Pieces.Filled(puzzle, yy, c) ==> g[1][areaStartX + c] == 0
        {
          if puzzle[yy][xx] != 0 {
            assert Pieces.Filled(puzzle, yy, xx);
            lineFound := true;
            var b := area.GetBlock(areaStartY, areaStartX + xx);
            if b.value != 0 {
              return false;
            }
          }
          xx := xx + 1;
        }
        assert lineFound == (low >= yy) by {
          if low == yy {
            var c :| Pieces.Filled(puzzle, low, c);
          }
        }
        if lineFound {
          lines := lines + 1;
        }
        if areaStartY - lines < 0 {
          break;
        }
        yy := yy - 1;
      }
      return true;
    }

    /** The statistics part of Puzzle.place: one more piece on this level,
        and a level up once the count reaches 10 + 2 * level. */
    method CountPiece()
      modifies stats
      ensures stats.Values() == Counters.PlacedCounts(old(stats.Values()))
    {
      stats.SetPuzzles(stats.GetPuzzles() + 1);
      if stats.GetPuzzles() >= 10 + stats.GetLevel() * 2 {
        stats.SetLevel(stats.GetLevel() + 1);
        stats.SetPuzzles(0);
      }
    }

    /** Puzzle.place (position and level logic): the piece count steps the
        level rule, the matrix becomes the shape of the current type, the
        anchor is the spawn column and the row that puts the shape's lowest
        block in area row 1, and the piece starts running. */
    method Place()
      requires Valid()
      modifies this, stats
      ensures Valid()
      ensures State() == Steps.SpawnState(old(pieceType), old(nextType), puzzles[old(pieceType)], area.width, old(stopped))
      ensures stats.Values() == Counters.PlacedCounts(old(stats.Values()))
    {
      CountPiece();
      var puzzle := puzzles[pieceType];
      var n := |puzzle|;
      ghost var low := Pieces.LowestRow(puzzle);
      var areaStartX := Pieces.SpawnX(area.width, |puzzle[0]|);
      var lineFound := false;
      var lines := 0;
      var startY := 1;
      var cells := CreateEmptyPuzzle(n, |puzzle[0]|);
      var yy := n - 1;
      while yy >= 0
        invariant -1 <= yy < n
        invariant Grid.IsRect(cells, n, n)
        invariant forall r, c :: yy < r < n && 0 <= c < n ==> cells[r][c] == puzzle[r][c]
        invariant forall r, c :: 0 <= r <= yy && 0 <= c < n ==> cells[r][c] == 0
        invariant lineFound == (low > yy)
        invariant lines == (if low > yy then low - yy else 0)
        invariant startY == 1 - (if lines > 0 then lines - 1 else 0)
      {
        var row := cells[yy];
        var xx := 0;
        while xx < n
          invariant 0 <= xx <= n && |row| == n
          invariant forall c :: 0 <= c < xx ==> row[c] == puzzle[yy][c]
          invariant forall c :: xx <= c < n ==> row[c] == 0
          invariant lineFound == (low > yy || exists c :: 0 <= c < xx && Pieces.Filled(puzzle, yy, c))
        {
          if puzzle[yy][xx] != 0 {
            assert Pieces.Filled(puzzle, yy, xx);
            lineFound := true;
            row := row[xx := 1];
          }
          xx := xx + 1;
        }
        cells := cells[yy := row];
        assert lineFound == (low >= yy) by {
          if low == yy {
            var c :| Pieces.Filled(puzzle, low, c);
          }
        }
        if lines != 0 {
          startY := startY - 1;
        }
        if lineFound {
          lines := lines + 1;
        }
        yy := yy - 1;
      }
      Grid.SameCells(cells, puzzle, n, n);
      assert startY == Pieces.SpawnY(puzzle);
      Pieces.SpawnInBounds(area.height, area.width, puzzle);
      x, y, board := areaStartX, startY, cells;
      running := true;
    }

    // -------------------------------------------------------------------
    // Rotation

    /** Puzzle.mayRotate: every block of the matrix, at the cell a quarter
        turn sends it to, is inside the columns of the area, above its floor,
        and on an empty cell (rows above the area always pass). */
    method MayRotate() returns (ok: bool)
      requires Valid()
      ensures ok == Pieces.Fits(area.cells, area.width, Pieces.Rotated(board), x, y)
    {
      ghost var g := area.cells;
      var n := |board|;
      var yy := 0;
      while yy < n
        invariant 0 <= yy <= n
        invariant forall r, c :: r < yy && Pieces.Filled(board, r, c) ==>
          Pieces.CellFree(g, area.width, y + n - 1 - c, x + r)
      {
        var xx := 0;
        while xx < n
          invariant 0 <= xx <= n
          invariant forall r, c :: r < yy && Pieces.Filled(board, r, c) ==>
            Pieces.CellFree(g, area.width, y + n - 1 - c, x + r)
          invariant forall c :: c < xx && Pieces.Filled(board, yy, c) ==>
            Pieces.CellFree(g, area.width, y + n - 1 - c, x + yy)
        {
          if board[yy][xx] != 0 {
            assert Pieces.Filled(board, yy, xx);
            var newY := y + n - 1 - xx;
            var newX := x + yy;
            if newY >= area.height || newX < 0 || newX >= area.width {
              Pieces.RotatedFits(g, area.width, board, x, y);
              return false;
            }
            var b := area.GetBlock(newY, newX);
            if b.value != 0 {
              Pieces.RotatedFits(g, area.width, board, x, y);
              return false;
            }
          }
          xx := xx + 1;
        }
        yy := yy + 1;
      }
      Pieces.RotatedFits(g, area.width, board, x, y);
      return true;
    }

    /** Puzzle.rotate: the matrix is replaced by its quarter turn to the
        left, filled in a fresh matrix; nothing else changes. */
    method Rotate()
      requires Consistent() && |board| > 0
      modifies this
      ensures Consistent()
      ensures State() == old(State()).(board := Pieces.Rotated(old(board)))
    {
      var m := board;
      var n := |m|;
      var puzzle := CreateEmptyPuzzle(n, |m[0]|);
      var yy := 0;
      while yy < n
        invariant 0 <= yy <= n
        invariant Grid.IsRect(puzzle, n, n)
        invariant forall i, j {:trigger puzzle[i][j]} :: 0 <= i < n && 0 <= j < n ==>
          puzzle[i][j] == (if j < yy then m[j][n - 1 - i] else 0)
      {
        var xx := 0;
        while xx < n
          invariant 0 <= xx <= n
          invariant Grid.IsRect(puzzle, n, n)
          invariant forall i, j {:trigger puzzle[i][j]} :: 0 <= i < n && 0 <= j < n ==>
            puzzle[i][j] == (if j < yy || (j == yy && n - 1 - i < xx) then m[j][n - 1 - i] else 0)
        {
          if m[yy][xx] != 0 {
            var newY := n - 1 - xx;
            var newX := yy;
            puzzle := puzzle[newY := puzzle[newY][newX := m[yy][xx]]];
          }
          xx := xx + 1;
        }
        yy := yy + 1;
      }
      Grid.SameCells(puzzle, Pieces.Rotated(m), n, n);
      Pieces.RotatePreservesBinary(m);
      board := puzzle;
    }

    // -------------------------------------------------------------------
    // Moving

    /** Puzzle.mayMoveDown: every block, one row lower, is above the floor
        and on an empty cell. A refusal also marks the piece stopped. */
    method MayMoveDown() returns (ok: bool)
      requires Valid()
      modifies this
      ensures Valid()
      ensures ok == Pieces.Fits(area.cells, area.width, board, x, y + 1)
      ensures State() == old(State()).(stopped := if ok then old(stopped) else true)
    {
      ghost var g := area.cells;
      var n := |board|;
      var yy := 0;
      while yy < n
        invariant 0 <= yy <= n
        invariant forall r, c :: r < yy && Pieces.Filled(board, r, c) ==>
          Pieces.CellFree(g, area.width, y + 1 + r, x + c)
      {
        var xx := 0;
        while xx < n
          invariant 0 <= xx <= n
          invariant forall r, c :: r < yy && Pieces.Filled(board, r, c) ==>
            Pieces.CellFree(g, area.width, y + 1 + r, x + c)
          invariant forall c :: c < xx && Pieces.Filled(board, yy, c) ==>
            Pieces.CellFree(g, area.width, y + 1 + yy, x + c)
        {
          if board[yy][xx] != 0 {
            assert Pieces.Filled(board, yy, xx);
            if y + yy + 1 >= area.height {
              stopped := true;
              return false;
            }
            var b := area.GetBlock(y + yy + 1, x + xx);
            if b.value != 0 {
              stopped := true;
              return false;
            }
          }
          xx := xx + 1;
        }
        yy := yy + 1;
      }
      return true;
    }

    /** Puzzle.mayMoveLeft: every block, one column to the left, is inside
        the area and on an empty cell. */
    method MayMoveLeft() returns (ok: bool)
      requires Valid()
      ensures ok == Pieces.Fits(area.cells, area.width, board, x - 1, y)
      ensures forall r, c :: Pieces.Filled(board, r, c) && x + c == 0 ==> !ok
    {
      ghost var g := area.cells;
      var n := |board|;
      var yy := 0;
      while yy < n
        invariant 0 <= yy <= n
        invariant forall r, c :: r < yy && Pieces.Filled(board, r, c) ==>
          Pieces.CellFree(g, area.width, y + r, x - 1 + c)
      {
        var xx := 0;
        while xx < n
          invariant 0 <= xx <= n
          invariant forall r, c :: r < yy && Pieces.Filled(board, r, c) ==>
            Pieces.CellFree(g, area.width, y + r, x - 1 + c)
          invariant forall c :: c < xx && Pieces.Filled(board, yy, c) ==>
            Pieces.CellFree(g, area.width, y + yy, x - 1 + c)
        {
          if board[yy][xx] != 0 {
            assert Pieces.Filled(board, yy, xx);
            if x + xx - 1 < 0 {
              ok := false;
              WallsLeft(g, ok);
              return;
            }
            var b := area.GetBlock(y + yy, x + xx - 1);
            if b.value != 0 {
              ok := false;
              WallsLeft(g, ok);
              return;
            }
          }
          xx := xx + 1;
        }
        yy := yy + 1;
      }
      ok := true;
      WallsLeft(g, ok);
    }

    /** The column-0 rule for MayMoveLeft, from the wall lemma. */
    lemma WallsLeft(g: Grid.Board, ok: bool)
      requires Valid() && g == area.cells
      requires ok == Pieces.Fits(g, area.width, board, x - 1, y)
      ensures forall r, c :: Pieces.Filled(board, r, c) && x + c == 0 ==> !ok
    {
      forall r, c | Pieces.Filled(board, r, c) && x + c == 0 ensures !ok {
        Pieces.WallsBlock(g, area.width, board, x, y, r, c);
      }
    }

    /** Puzzle.mayMoveRight: every block, one column to the right, is inside
        the area and on an empty cell. */
    method MayMoveRight() returns (ok: bool)
      requires Valid()
      ensures ok == Pieces.Fits(area.cells, area.width, board, x + 1, y)
      ensures forall r, c :: Pieces.Filled(board, r, c) && x + c == area.width - 1 ==> !ok
    {
      ghost var g := area.cells;
      var n := |board|;
      var yy := 0;
      while yy < n
        invariant 0 <= yy <= n
        invariant forall r, c :: r < yy && Pieces.Filled(board, r, c) ==>
          Pieces.CellFree(g, area.width, y + r, x + 1 + c)
      {
        var xx := 0;
        while xx < n
          invariant 0 <= xx <= n
          invariant forall r, c :: r < yy && Pieces.Filled(board, r, c) ==>
            Pieces.CellFree(g, area.width, y + r, x + 1 + c)
          invariant forall c :: c < xx && Pieces.Filled(board, yy, c) ==>
            Pieces.CellFree(g, area.width, y + yy, x + 1 + c)
        {
          if board[yy][xx] != 0 {
            assert Pieces.Filled(board, yy, xx);
            if x + xx + 1 >= area.width {
              ok := false;
              WallsRight(g, ok);
              return;
            }
            var b := area.GetBlock(y + yy, x + xx + 1);
            if b.value != 0 {
              ok := false;
              WallsRight(g, ok);
              return;
            }
          }
          xx := xx + 1;
        }
        yy := yy + 1;
      }
      ok := true;
      WallsRight(g, ok);
    }

    /** The last-column rule for MayMoveRight, from the wall lemma. */
    lemma WallsRight(g: Grid.Board, ok: bool)
      requires Valid() && g == area.cells
      requires ok == Pieces.Fits(g, area.width, board, x + 1, y)
      ensures forall r, c :: Pieces.Filled(board, r, c) && x + c == area.width - 1 ==> !ok
    {
      forall r, c | Pieces.Filled(board, r, c) && x + c == area.width - 1 ensures !ok {
        Pieces.WallsBlock(g, area.width, board, x, y, r, c);
      }
    }

    /** Puzzle.moveDown: one row down. */
    method MoveDown()
      requires Consistent()
      modifies this
      ensures Consistent()
      ensures State() == old(State()).(y := old(y) + 1)
    {
      y := y + 1;
    }

    /** Puzzle.moveLeft: one column left. */
    method MoveLeft()
      requires Consistent()
      modifies this
      ensures Consistent()
      ensures State() == old(State()).(x := old(x) - 1)
    {
      x := x - 1;
    }

    /** Puzzle.moveRight: one column right. */
    method MoveRight()
      requires Consistent()
      modifies this
      ensures Consistent()
      ensures State() == old(State()).(x := old(x) + 1)
    {
      x := x + 1;
    }

    // -------------------------------------------------------------------
    // Locking

    /** The loop of Area.addElement calls in the lock step: every block of the
        piece is written into the area with value type + 1 (a block of type 0
        must read as occupied); blocks outside the area are dropped. */
    method AddToArea()
      requires Valid()
      modifies area, area.board
      ensures Valid()
      ensures area.cells == Pieces.Stamp(old(area.cells), area.width, board, x, y, pieceType + 1)
    {
      ghost var g0 := area.cells;
      var v := pieceType + 1;
      var n := |board|;
      var yy := 0;
      while yy < n
        invariant 0 <= yy <= n
        invariant area.Valid()
        invariant forall i, j :: 0 <= i < area.height && 0 <= j < area.width ==>
          area.cells[i][j] == (if Pieces.Filled(board, i - y, j - x) && i - y < yy then v else g0[i][j])
      {
        var xx := 0;
        while xx < n
          invariant 0 <= xx <= n
          invariant area.Valid()
          invariant forall i, j :: 0 <= i < area.height && 0 <= j < area.width ==>
            area.cells[i][j] == (if Pieces.Filled(board, i - y, j - x) && (i - y < yy || (i - y == yy && j - x < xx)) then v else g0[i][j])
        {
          if board[yy][xx] != 0 {
            area.AddElement(y + yy, x + xx, v);
          }
          xx := xx + 1;
        }
        yy := yy + 1;
      }
      Grid.SameCells(area.cells, Pieces.Stamp(g0, area.width, board, x, y, v), area.height, area.width);
    }

    /** The first half of the lock step: the piece is written into the area
        with value pieceType + 1, the full rows are cleared, and lines and
        score are credited. The piece itself is untouched. */
    method Settle()
      requires Valid()
      modifies stats, area, area.board
      ensures Valid()
      ensures var r := Grid.ClearFrom(Pieces.Stamp(old(area.cells), area.width, old(board), old(x), old(y), old(pieceType) + 1),
                                      area.height - 1, area.width);
        area.cells == r.0 && stats.Values() == Counters.LockedCounts(old(stats.Values()), r.1)
    {
      ghost var c0 := stats.Values();
      ghost var g1 := Pieces.Stamp(area.cells, area.width, board, x, y, pieceType + 1);
      AddToArea();
      assert area.cells == g1;
      var lines := area.RemoveFullLines();
      assert (area.cells, lines) == Grid.ClearFrom(g1, area.height - 1, area.width);
      if lines != 0 {
        stats.SetLines(stats.GetLines() + lines);
        stats.SetScore(stats.GetScore() + 1000 * stats.GetLevel() * lines);
      }
      assert stats.Values() == Counters.LockedCounts(c0, lines);
    }

    /** The second half of the lock step: the piece is reset with `next`
        queued, and the queued type spawns when mayPlace accepts it; otherwise
        the game is over, which amounts to Puzzle.stop here. */
    method Respawn(next: int)
      requires Valid() && 0 <= next < 7
      modifies this, stats
      ensures Valid()
      ensures Steps.Locked(State(), stats.Values(), area.cells)
           == Steps.SpawnOutcome(Steps.ResetState(old(nextType), next), old(stats.Values()), area.cells, puzzles, area.width)
    {
      Reset(next);
      var ok := MayPlace();
      if ok {
        Place();
      } else {
        Stop();
      }
    }

    /** The lock branch shared by Puzzle.fallDown and Puzzle.forceMoveDown. */
    method Lock(next: int)
      requires Valid() && 0 <= next < 7
      modifies this, stats, area, area.board
      ensures Valid()
      ensures Steps.Locked(State(), stats.Values(), area.cells)
           == Steps.LockOutcome(old(pieceType), old(nextType), old(board), old(x), old(y),
                          old(stats.Values()), old(area.cells), next, puzzles, area.width)
    {
      Settle();
      Respawn(next);
    }

    /** Puzzle.fallDown, one timer tick: a running piece moves one row down
        when it can, and otherwise locks. A piece that is not running is left
        alone. */
    method FallDown(next: int)
      requires Valid() && 0 <= next < 7
      modifies this, stats, area, area.board
      ensures Valid()
      ensures Steps.Locked(State(), stats.Values(), area.cells)
           == Steps.FallStep(old(State()), old(stats.Values()), old(area.cells), next, puzzles, area.width)
    {
      if running {
        var ok := MayMoveDown();
        if ok {
          Descend();
        } else {
          Lock(next);
        }
      }
    }

    /** Puzzle.moveDown where the piece fits one row lower: the piece stays
        within the area. */
    method Descend()
      requires Valid() && Pieces.Fits(area.cells, area.width, board, x, y + 1)
      modifies this
      ensures Valid()
      ensures State() == old(State()).(y := old(y) + 1)
    {
      MoveDown();
      Pieces.FitsInBounds(area.cells, area.width, board, x, y);
    }

    /** The move branch of Puzzle.forceMoveDown: 5 + level points, one
        action, and the piece one row lower. */
    method DropStep()
      requires Valid() && !running && !stopped
      requires Pieces.Fits(area.cells, area.width, board, x, y + 1)
      modifies this, stats
      ensures Valid()
      ensures State() == old(State()).(y := old(y) + 1)
      ensures stats.Values() == Counters.DropCounts(old(stats.Values()))
    {
      stats.SetScore(stats.GetScore() + 5 + stats.GetLevel());
      stats.SetActions(stats.GetActions() + 1);
      Descend();
    }

    /** Puzzle.forceMoveDown, one timer tick of a hard drop: a piece that is
        neither running nor stopped moves one row down when it can, earning
        5 + level points and one action, and otherwise locks. */
    method ForceMoveDown(next: int)
      requires Valid() && 0 <= next < 7
      modifies this, stats, area, area.board
      ensures Valid()
      ensures Steps.Locked(State(), stats.Values(), area.cells)
           == Steps.ForceStep(old(State()), old(stats.Values()), old(area.cells), next, puzzles, area.width)
    {
      if !running && !stopped {
        var ok := MayMoveDown();
        if ok {
          DropStep();
        } else {
          Lock(next);
        }
      }
    }
  }
}
