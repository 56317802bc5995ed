/** The playing area: a height by width board of settled cells, updated in
    place. */
module Areas {
  import Grid

  /** What Area.getBlock produces: a cell value, or the error it throws. */
  datatype BlockRead = Block(value: int) | OutOfRange

  class Area {
    /** Number of columns (the source's `x`). */
    const width: nat
    /** Number of rows (the source's `y`). */
    const height: nat
    /** The cells, indexed [row, column]. */
    const board: array2<int>

    /** The cells as a value. */
    ghost var cells: Grid.Board

    ghost predicate Valid()
      reads this, board
    {
      board.Length0 == height && board.Length1 == width &&
      Grid.IsRect(cells, height, width) &&
      forall r, c :: 0 <= r < height && 0 <= c < width ==> cells[r][c] == board[r, c]
    }

    /** A new area has `h` rows of `w` empty cells. */
    constructor (w: nat, h: nat)
      ensures Valid() && fresh(board)
      ensures width == w && height == h
      ensures cells == Grid.Empty(h, w)
    {
      var b := new int[h, w];
      var r := 0;
      while r < h
        invariant 0 <= r <= h
        invariant forall i, j :: 0 <= i < r && 0 <= j < w ==> b[i, j] == 0
      {
        var c := 0;
        while c < w
          invariant 0 <= c <= w
          invariant forall i, j :: 0 <= i < r && 0 <= j < w ==> b[i, j] == 0
          invariant forall j :: 0 <= j < c ==> b[r, j] == 0
        {
          b[r, c] := 0;
          c := c + 1;
        }
        r := r + 1;
      }
      width, height, board := w, h, b;
      cells := Grid.Empty(h, w);
    }

    /** Removes every settled block: afterwards every cell is empty. */
    method Destroy()
      requires Valid()
      modifies this, board
      ensures Valid() && cells == Grid.Empty(height, width)
    {
      var r := 0;
      while r < height
        invariant 0 <= r <= height
        invariant forall i, j :: 0 <= i < r && 0 <= j < width ==> board[i, j] == 0
      {
        var c := 0;
        while c < width
          invariant 0 <= c <= width
          invariant forall i, j :: 0 <= i < r && 0 <= j < width ==> board[i, j] == 0
          invariant forall j :: 0 <= j < c ==> board[r, j] == 0
        {
          if board[r, c] != 0 {
            board[r, c] := 0;
          }
          c := c + 1;
        }
        r := r + 1;
      }
      cells := Grid.Empty(height, width);
    }

    /** Area.getBlock(y, x): rows above the area read as empty; a row at or
        below the floor, or a column at or past the right edge, is an error.
        A negative column reads as JavaScript's `undefined`, which every
        caller treats as an empty cell. */
    function GetBlock(y: int, x: int): (b: BlockRead)
      reads this, board
      requires Valid()
      ensures b.Block? <==> y < 0 || (y < height && x < width)
      ensures b.Block? && 0 <= y && 0 <= x ==> b.value == cells[y][x]
      ensures b.Block? && (y < 0 || x < 0) ==> b.value == 0
    {
      if y < 0 then Block(0)
      else if y < height && x < width then
        if x < 0 then Block(0) else Block(board[y, x])
      else OutOfRange
    }

    /** Area.isLineFull(y): every cell of row y is occupied. */
    method IsLineFull(y: int) returns (full: bool)
      requires Valid() && 0 <= y < height
      ensures full <==> Grid.IsFullRow(cells[y])
    {
      var x := 0;
      while x < width
        invariant 0 <= x <= width
        invariant forall j :: 0 <= j < x ==> board[y, j] != 0
      {
        if board[y, x] == 0 {
          assert cells[y][x] == 0;
          return false;
        }
        x := x + 1;
      }
      return true;
    }

    /** Area.removeLine(y): the blocks of the full row y are removed, every
        row from y - 1 up to row 1 moves one row down, and row 1 is left
        empty. Row 0 is never moved. */
    method RemoveLine(y: int)
      requires Valid() && 0 <= y < height
      requires Grid.IsFullRow(cells[y])
      modifies this, board
      ensures Valid() && cells == Grid.ShiftDown(old(cells), y, width)
    {
      ghost var g0 := cells;
      ClearRow(y);
      var r := y - 1;
      while r > 0
        invariant -1 <= r < y
        invariant r < 0 ==> y == 0
        invariant forall i, j :: i == r + 1 && 0 <= j < width ==> board[i, j] == 0
        invariant forall i, j :: r + 2 <= i <= y && 0 <= j < width ==> board[i, j] == g0[i - 1][j]
        invariant forall i, j :: 0 <= i <= r && 0 <= j < width ==> board[i, j] == g0[i][j]
        invariant forall i, j :: y < i < height && 0 <= j < width ==> board[i, j] == g0[i][j]
      {
        MoveRowDown(r);
        r := r - 1;
      }
      cells := Grid.ShiftDown(g0, y, width);
    }

    /** The first loop of Area.removeLine: every cell of row y is emptied. */
    method ClearRow(y: int)
      requires board.Length0 == height && board.Length1 == width && 0 <= y < height
      modifies board
      ensures forall j :: 0 <= j < width ==> board[y, j] == 0
      ensures forall i, j :: 0 <= i < height && 0 <= j < width && i != y ==> board[i, j] == old(board[i, j])
    {
      var x := 0;
      while x < width
        invariant 0 <= x <= width
        invariant forall j :: 0 <= j < x ==> board[y, j] == 0
        invariant forall i, j :: 0 <= i < height && 0 <= j < width && (i != y || x <= j) ==> board[i, j] == old(board[i, j])
      {
        board[y, x] := 0;
        x := x + 1;
      }
    }

    /** The inner loop of Area.removeLine: the blocks of row r move into the
        empty row r + 1 and row r is left empty. Only occupied cells are
        moved, which is enough because row r + 1 starts out empty. */
    method MoveRowDown(r: int)
      requires board.Length0 == height && board.Length1 == width && 0 <= r && r + 1 < height
      requires forall i, j :: i == r + 1 && 0 <= j < width ==> board[i, j] == 0
      modifies board
      ensures forall i, j :: i == r + 1 && 0 <= j < width ==> board[i, j] == old(board[r, j])
      ensures forall j :: 0 <= j < width ==> board[r, j] == 0
      ensures forall i, j :: 0 <= i < height && 0 <= j < width && i != r && i != r + 1 ==> board[i, j] == old(board[i, j])
    {
      var c := 0;
      while c < width
        invariant 0 <= c <= width
        invariant forall i, j :: i == r + 1 && 0 <= j < c ==> board[i, j] == old(board[r, j])
        invariant forall i, j :: i == r + 1 && c <= j < width ==> board[i, j] == 0
        invariant forall j :: 0 <= j < c ==> board[r, j] == 0
        invariant forall j :: c <= j < width ==> board[r, j] == old(board[r, j])
        invariant forall i, j :: 0 <= i < height && 0 <= j < width && i != r && i != r + 1 ==> board[i, j] == old(board[i, j])
      {
        if board[r, c] != 0 {
          board[r + 1, c] := board[r, c];
          board[r, c] := 0;
        }
        c := c + 1;
      }
    }

    /** Area.removeFullLines(): scans from the bottom row up to row 1, removes
        each full row and tests the same row index again, since the row above
        has moved into it. Returns the number of rows removed. */
    method RemoveFullLines() returns (lines: nat)
      requires Valid() && width > 0
      modifies this, board
      ensures Valid()
      ensures (cells, lines) == Grid.ClearFrom(old(cells), height - 1, width)
      ensures cells == Grid.Compacted(old(cells), width)
      ensures lines == Grid.FullRowsBelowTop(old(cells))
    {
      ghost var g0 := cells;
      ghost var target := Grid.ClearFrom(g0, height - 1, width);
      ghost var g := g0;
      lines := 0;
      var y := height - 1;
      while y > 0
        invariant -1 <= y < height
        invariant Valid() && cells == g
        invariant Grid.ClearFrom(g, y, width).0 == target.0
        invariant Grid.ClearFrom(g, y, width).1 + lines == target.1
        decreases target.1 - lines, y
      {
        var full := IsLineFull(y);
        if full {
          Grid.ClearFromFullStep(g, y, width);
          RemoveLine(y);
          g := cells;
          lines := lines + 1;
          y := y + 1;
        } else {
          Grid.ClearFromSkipStep(g, y, width);
        }
        y := y - 1;
      }
      Grid.ClearFromNoScan(g, y, width);
      Grid.RemoveFullLinesCompacts(g0, width);
      Grid.CompactedProperties(g0, width);
    }

    /** Area.addElement at integer coordinates: writes the cell when (y, x)
        lies inside the area and otherwise changes nothing. */
    method AddElement(y: int, x: int, v: int)
      requires Valid()
      modifies this, board
      ensures Valid()
      ensures 0 <= y < height && 0 <= x < width ==> cells == old(cells)[y := old(cells)[y][x := v]]
      ensures !(0 <= y < height && 0 <= x < width) ==> cells == old(cells)
    {
      if y >= 0 && y < height && x >= 0 && x < width {
        board[y, x] := v;
        cells := cells[y := cells[y][x := v]];
      }
    }
  }
}
