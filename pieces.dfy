/** The seven piece shapes, the quarter turn, and the collision, spawn and
    lock rules between a piece matrix and the settled cells of the area. */
module Pieces {
  import Grid

  /** A piece matrix: n rows of n cells, 0 for empty and nonzero for a block. */
  type Matrix = seq<seq<int>>

  predicate IsSquare(m: Matrix) {
    forall r :: 0 <= r < |m| ==> |m[r]| == |m|
  }

  /** Cell (r, c) of m holds a block. */
  predicate Filled(m: Matrix, r: int, c: int) {
    0 <= r < |m| && 0 <= c < |m[r]| && m[r][c] != 0
  }

  /** Every cell is 0 or 1. */
  predicate IsBinary(m: Matrix) {
    forall r, c :: 0 <= r < |m| && 0 <= c < |m[r]| ==> m[r][c] == 0 || m[r][c] == 1
  }

  /** The shape table, indexed by piece type 0..6. */
  function Shape(t: int): (m: Matrix)
    requires 0 <= t < 7
    ensures IsSquare(m) && IsBinary(m) && 2 <= |m| <= 4
  {
    match t
    case 0 => [[0, 0, 1], [1, 1, 1], [0, 0, 0]]
    case 1 => [[1, 0, 0], [1, 1, 1], [0, 0, 0]]
    case 2 => [[0, 1, 1], [1, 1, 0], [0, 0, 0]]
    case 3 => [[1, 1, 0], [0, 1, 1], [0, 0, 0]]
    case 4 => [[0, 1, 0], [1, 1, 1], [0, 0, 0]]
    case 5 => [[1, 1], [1, 1]]
    case 6 => [[0, 0, 0, 0], [1, 1, 1, 1], [0, 0, 0, 0], [0, 0, 0, 0]]
  }
  /** The shape table as a sequence. */
  function Shapes(): (s: seq<Matrix>)
    ensures |s| == 7 && forall t :: 0 <= t < 7 ==> s[t] == Shape(t)
  {
    seq(7, t requires 0 <= t < 7 => Shape(t))
  }

  /** What the piece code needs of a shape table: seven square 0/1 matrices
      of size 2 to 4 whose lowest block is in row 1. */
  ghost predicate ShapeTable(s: seq<Matrix>) {
    |s| == 7 &&
    forall t :: 0 <= t < 7 ==>
      IsSquare(s[t]) && IsBinary(s[t]) && 2 <= |s[t]| <= 4 && LowestRow(s[t]) == 1
  }

  /** The set of filled cells of m. */
  function FilledCells(m: Matrix): (cells: set<(int, int)>) {
    set r, c | 0 <= r < |m| && 0 <= c < |m[r]| && m[r][c] != 0 :: (r, c)
  }

  // ---------------------------------------------------------------------
  // Rotation

  /** Where a quarter turn to the left takes cell (r, c) of an n by n matrix. */
  function RotateCell(p: (int, int), n: int): (r: (int, int)) {
    (n - 1 - p.1, p.0)
  }

  /** Puzzle.rotate on the cell matrix: a quarter turn to the left. */
  function Rotated(m: Matrix): (p: Matrix)
    requires IsSquare(m)
    ensures |p| == |m| && IsSquare(p)
    ensures forall r, c :: 0 <= r < |m| && 0 <= c < |m| ==> p[|m| - 1 - c][r] == m[r][c]
    ensures forall i, j :: 0 <= i < |m| && 0 <= j < |m| ==> p[i][j] == m[j][|m| - 1 - i]
  {
    var n := |m|;
    seq(n, i requires 0 <= i < n => seq(n, j requires 0 <= j < n => m[j][n - 1 - i]))
  }

  /** Two quarter turns turn the matrix upside down and mirror it. */
  lemma HalfTurn(m: Matrix)
    requires IsSquare(m)
    ensures |Rotated(Rotated(m))| == |m| && IsSquare(Rotated(Rotated(m)))
    ensures forall i, j :: 0 <= i < |m| && 0 <= j < |m| ==>
      Rotated(Rotated(m))[i][j] == m[|m| - 1 - i][|m| - 1 - j]
  {
    var n := |m|;
    var a := Rotated(m);
    var b := Rotated(a);
    forall i, j | 0 <= i < n && 0 <= j < n ensures b[i][j] == m[n - 1 - i][n - 1 - j] {
      assert b[i][j] == a[j][n - 1 - i];
    }
  }

  /** Four quarter turns give the original matrix back. */
  lemma RotateFourTimes(m: Matrix)
    requires IsSquare(m)
    ensures Rotated(Rotated(Rotated(Rotated(m)))) == m
  {
    var n := |m|;
    var f := Rotated(Rotated(Rotated(Rotated(m))));
    forall i, j | 0 <= i < n && 0 <= j < n ensures f[i][j] == m[i][j] {
      FourTurnsCell(m, i, j);
    }
    Grid.SameCells(f, m, n, n);
  }

  lemma FourTurnsCell(m: Matrix, i: int, j: int)
    requires IsSquare(m) && 0 <= i < |m| && 0 <= j < |m|
    ensures Rotated(Rotated(Rotated(Rotated(m))))[i][j] == m[i][j]
  {
    var n := |m|;
    HalfTurn(m);
    var h := Rotated(Rotated(m));
    HalfTurn(h);
    assert Rotated(Rotated(h))[i][j] == h[n - 1 - i][n - 1 - j];
  }

  /** The cells filled after a quarter turn are the images of the cells
      filled before it. */
  lemma RotatedCells(m: Matrix)
    requires IsSquare(m)
    ensures FilledCells(Rotated(m)) == set p | p in FilledCells(m) :: RotateCell(p, |m|)
  {
    var n := |m|;
    var p := Rotated(m);
    forall q | q in FilledCells(p) ensures q in set p | p in FilledCells(m) :: RotateCell(p, n) {
      var src := (q.1, n - 1 - q.0);
      assert src in FilledCells(m);
      assert RotateCell(src, n) == q;
    }
  }

  /** The image of a set of cells under a quarter turn has as many cells. */
  lemma {:induction false} RotateImageSize(s: set<(int, int)>, n: int)
    ensures |set p | p in s :: RotateCell(p, n)| == |s|
    decreases |s|
  {
    if s != {} {
      var p :| p in s;
      var s' := s - {p};
      RotateImageSize(s', n);
      var img' := set q | q in s' :: RotateCell(q, n);
      assert (set q | q in s :: RotateCell(q, n)) == img' + {RotateCell(p, n)};
      assert RotateCell(p, n) !in img';
    } else {
      assert (set q | q in s :: RotateCell(q, n)) == {};
    }
  }

  /** A quarter turn keeps the number of filled cells. */
  lemma RotatePreservesCount(m: Matrix)
    requires IsSquare(m)
    ensures |FilledCells(Rotated(m))| == |FilledCells(m)|
  {
    RotatedCells(m);
    RotateImageSize(FilledCells(m), |m|);
  }

  /** Rotating a 0/1 matrix gives a 0/1 matrix. */
  lemma RotatePreservesBinary(m: Matrix)
    requires IsSquare(m) && IsBinary(m)
    ensures IsBinary(Rotated(m))
  {
  }

  // ---------------------------------------------------------------------
  // The shape table

  /** Some cell of the row holds a block. */
  predicate RowHasBlock(row: seq<int>) {
    exists c :: 0 <= c < |row| && row[c] != 0
  }

  lemma RowBlockIsFilled(m: Matrix, r: int)
    requires 0 <= r < |m| && RowHasBlock(m[r])
    ensures exists c :: Filled(m, r, c)
  {
    var c :| 0 <= c < |m[r]| && m[r][c] != 0;
    assert Filled(m, r, c);
  }

  /** The lowest row of m (largest index) that holds a block, or -1. */
  function LowestRow(m: Matrix): (l: int)
    ensures -1 <= l < |m|
    ensures l >= 0 ==> exists c :: Filled(m, l, c)
    ensures forall r, c :: l < r && Filled(m, r, c) ==> false
  {
    if m == [] then -1
    else if RowHasBlock(m[|m| - 1]) then
      RowBlockIsFilled(m, |m| - 1);
      |m| - 1
    else
      var init := m[..|m| - 1];
      var l := LowestRow(init);
      assert forall r, c :: Filled(m, r, c) && r < |m| - 1 ==> Filled(init, r, c);
      assert l >= 0 ==> exists c :: Filled(m, l, c) by {
        if l >= 0 {
          var c :| Filled(init, l, c);
          assert Filled(m, l, c);
        }
      }
      l
  }

  /** The lowest block of every shape sits in row 1. */
  lemma ShapeLowestRow(t: int)
    requires 0 <= t < 7
    ensures LowestRow(Shape(t)) == 1
  {
    var m := Shape(t);
    assert Filled(m, 1, 1);
    forall r, c | 1 < r < |m| && 0 <= c < |m| ensures m[r][c] == 0 {
      if t == 6 {
        assert m[2] == [0, 0, 0, 0] && m[3] == [0, 0, 0, 0];
      } else if t < 5 {
        assert m[2] == [0, 0, 0];
      }
    }
  }

  // ---------------------------------------------------------------------
  // Collision

  /** A piece cell may occupy area cell (i, j): the column is inside the
      area, the row is above the floor, and the cell is empty. Rows above the
      area are always free. */
  predicate CellFree(g: Grid.Board, w: nat, i: int, j: int)
    requires Grid.IsRect(g, |g|, w)
  {
    0 <= j < w && i < |g| && (i < 0 || g[i][j] == 0)
  }

  /** The piece m with its top-left corner at column x, row y collides with
      neither the walls, the floor nor a settled block. */
  ghost predicate Fits(g: Grid.Board, w: nat, m: Matrix, x: int, y: int)
    requires Grid.IsRect(g, |g|, w)
    ensures (forall i, j :: 0 <= i < |g| && 0 <= j < w ==> g[i][j] == 0) ==>
      (Fits(g, w, m, x, y) <==> InBounds(|g|, w, m, x, y))
  {
    forall r, c :: Filled(m, r, c) ==> CellFree(g, w, y + r, x + c)
  }

  /** Every block of the piece is within the columns of the area and above
      its floor. */
  ghost predicate InBounds(h: nat, w: nat, m: Matrix, x: int, y: int) {
    forall r, c :: Filled(m, r, c) ==> 0 <= x + c < w && y + r < h
  }

  lemma FitsInBounds(g: Grid.Board, w: nat, m: Matrix, x: int, y: int)
    requires Grid.IsRect(g, |g|, w) && Fits(g, w, m, x, y)
    ensures InBounds(|g|, w, m, x, y)
  {
  }

  /** Puzzle.mayRotate tests every block of the current matrix at the place a
      quarter turn sends it; that is the collision rule for the turned matrix
      at the same anchor. */
  lemma RotatedFits(g: Grid.Board, w: nat, m: Matrix, x: int, y: int)
    requires Grid.IsRect(g, |g|, w) && IsSquare(m)
    ensures Fits(g, w, Rotated(m), x, y)
        <==> forall r, c :: Filled(m, r, c) ==> CellFree(g, w, y + |m| - 1 - c, x + r)
  {
    var n := |m|;
    var p := Rotated(m);
    if forall r, c :: Filled(m, r, c) ==> CellFree(g, w, y + n - 1 - c, x + r) {
      forall i, j | Filled(p, i, j) ensures CellFree(g, w, y + i, x + j) {
        assert Filled(m, j, n - 1 - i);
      }
    }
    if Fits(g, w, p, x, y) {
      forall r, c | Filled(m, r, c) ensures CellFree(g, w, y + n - 1 - c, x + r) {
        assert Filled(p, n - 1 - c, r);
      }
    }
  }

  /** A piece with a block in column 0 cannot move left, and one with a block
      in the last column cannot move right, whatever the area holds. */
  lemma WallsBlock(g: Grid.Board, w: nat, m: Matrix, x: int, y: int, r: int, c: int)
    requires Grid.IsRect(g, |g|, w) && Filled(m, r, c)
    ensures x + c == 0 ==> !Fits(g, w, m, x - 1, y)
    ensures x + c == w - 1 ==> !Fits(g, w, m, x + 1, y)
  {
    if x + c == 0 {
      assert !CellFree(g, w, y + r, x - 1 + c);
    }
    if x + c == w - 1 {
      assert !CellFree(g, w, y + r, x + 1 + c);
    }
  }

  // ---------------------------------------------------------------------
  // Spawning

  /** `((w - n) / 2) | 0` in the source: division truncated toward zero. */
  function SpawnX(w: int, n: int): (x: int)
    ensures w >= n ==> 0 <= x && x + n <= w
    ensures w >= n ==> x == (w - n) / 2
  {
    if w >= n then (w - n) / 2 else -((n - w) / 2)
  }

  /** The anchor row Puzzle.place chooses: the lowest block of the shape lands
      in area row 1. */
  function SpawnY(m: Matrix): (y: int)
    ensures LowestRow(m) >= 0 ==> y + LowestRow(m) == 1
  {
    if LowestRow(m) < 0 then 1 else 1 - LowestRow(m)
  }

  /** The table of the game meets what the piece code needs. */
  lemma ShapesTable()
    ensures ShapeTable(Shapes())
  {
    forall t | 0 <= t < 7
      ensures LowestRow(Shapes()[t]) == 1
    {
      ShapeLowestRow(t);
    }
  }

  /** A spawned piece lies within the columns of the area, and its lowest
      block is in row 1, above the floor of any area at least two rows high. */
  lemma SpawnInBounds(h: nat, w: nat, m: Matrix)
    requires h >= 2 && w >= |m| && IsSquare(m) && LowestRow(m) == 1
    ensures InBounds(h, w, m, SpawnX(w, |m|), SpawnY(m))
  {
  }

  /** Puzzle.mayPlace as written: the blocks of the lowest occupied row of the
      shape and of the row above it are tested, each against area row 1 at
      its spawn column. */
  ghost predicate MayPlaceAt(g: Grid.Board, w: nat, m: Matrix, sx: int)
    requires IsSquare(m) && 0 <= sx && sx + |m| <= w
    ensures |g| >= 2 && |g[1]| == w && (forall j :: 0 <= j < w ==> g[1][j] == 0) ==>
      MayPlaceAt(g, w, m, sx)
    ensures MayPlaceAt(g, w, m, sx) ==>
      |g| >= 2 && |g[1]| == w &&
      forall c :: 0 <= c < |m| && Filled(m, LowestRow(m), c) ==> g[1][sx + c] == 0
  {
    |g| >= 2 && |g[1]| == w &&
    forall r, c :: Filled(m, r, c) && r >= LowestRow(m) - 1 ==> g[1][sx + c] == 0
  }

  /** On an empty area every shape may be placed. */
  lemma MayPlaceOnEmpty(h: nat, w: nat, t: int)
    requires h >= 2 && 0 <= t < 7 && w >= |Shape(t)|
    ensures MayPlaceAt(Grid.Empty(h, w), w, Shape(t), SpawnX(w, |Shape(t)|))
  {
    ShapeLowestRow(t);
  }

  /** mayPlace reads nothing but area row 1. */
  lemma MayPlaceReadsRowOne(g: Grid.Board, g': Grid.Board, w: nat, m: Matrix, sx: int)
    requires Grid.IsRect(g, |g|, w) && |g| >= 2 && Grid.IsRect(g', |g'|, w) && |g'| >= 2
    requires IsSquare(m) && 0 <= sx && sx + |m| <= w
    requires g[1] == g'[1]
    ensures MayPlaceAt(g, w, m, sx) == MayPlaceAt(g', w, m, sx)
  {
  }

  /** What mayPlace does not see: a block settled in area row 0 above a
      spawning T piece. The spawn is accepted, and the new piece overlaps the
      settled block. */
  lemma MayPlaceMissesRowZero()
    ensures var w := 12;
      var g := Grid.Empty(22, w)[0 := Grid.ZeroRow(w)[5 := 1]];
      var m := Shape(4);
      && Grid.IsRect(g, 22, w)
      && MayPlaceAt(g, w, m, SpawnX(w, |m|))
      && !Fits(g, w, m, SpawnX(w, |m|), SpawnY(m))
  {
    var w := 12;
    var g := Grid.Empty(22, w)[0 := Grid.ZeroRow(w)[5 := 1]];
    var m := Shape(4);
    ShapeLowestRow(4);
    assert SpawnX(w, 3) == 4;
    assert SpawnY(m) == 0;
    assert Filled(m, 0, 1);
    assert !CellFree(g, w, 0, 5);
  }

  /** The other side of the spawn test: a block settled in area row 1, under
      the top row of a spawning S piece but clear of its blocks. The piece
      fits at its spawn anchor, yet mayPlace refuses it and the game ends. */
  lemma MayPlaceRefusesFreeSpawn()
    ensures var w := 12;
      var g := Grid.Empty(22, w)[1 := Grid.ZeroRow(w)[6 := 1]];
      var m := Shape(2);
      && Grid.IsRect(g, 22, w)
      && !MayPlaceAt(g, w, m, SpawnX(w, |m|))
      && Fits(g, w, m, SpawnX(w, |m|), SpawnY(m))
  {
    var w := 12;
    var g := Grid.Empty(22, w)[1 := Grid.ZeroRow(w)[6 := 1]];
    var m := Shape(2);
    ShapeLowestRow(2);
    assert SpawnX(w, 3) == 4;
    assert SpawnY(m) == 0;
    assert Filled(m, 0, 2) && 0 >= LowestRow(m) - 1 && g[1][4 + 2] != 0;
    forall r, c | Filled(m, r, c)
      ensures CellFree(g, w, r, 4 + c)
    {
      assert (r, c) in {(0, 1), (0, 2), (1, 0), (1, 1)};
    }
  }

  // ---------------------------------------------------------------------
  // Locking

  /** The settled cells after the piece m at (x, y) is written with value v:
      every block that lands inside the area writes v there; blocks outside
      the area are dropped; every other cell keeps its value. */
  function Stamp(g: Grid.Board, w: nat, m: Matrix, x: int, y: int, v: int): (g': Grid.Board)
    requires Grid.IsRect(g, |g|, w)
    ensures Grid.IsRect(g', |g|, w)
  {
    seq(|g|, i requires 0 <= i < |g| =>
      seq(w, j requires 0 <= j < w => if Filled(m, i - y, j - x) then v else g[i][j]))
  }

  /** What the stamp writes: every block of m that lands inside the area
      holds v, and every cell not under a block of m keeps its value. */
  lemma StampCells(g: Grid.Board, w: nat, m: Matrix, x: int, y: int, v: int)
    requires Grid.IsRect(g, |g|, w)
    ensures forall r, c :: Filled(m, r, c) && 0 <= y + r < |g| && 0 <= x + c < w ==>
      Stamp(g, w, m, x, y, v)[y + r][x + c] == v
    ensures forall i, j :: 0 <= i < |g| && 0 <= j < w && !Filled(m, i - y, j - x) ==>
      Stamp(g, w, m, x, y, v)[i][j] == g[i][j]
  {
  }
}
