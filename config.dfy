/** Board constants and the row-major cell index of the game's configuration. */
module Config {

  /** Width of the board as configured (the game itself builds a 12-column area). */
  const COLUMNS: int := 12
  /** Height of the board as configured (the game itself builds 22 rows, not 23). */
  const ROWS: int := 23

  datatype Option<T> = None | Some(value: T)

  /** A point given as an object with an `x` and a `y`. */
  datatype XY = XY(x: int, y: int)

  /** The first argument of `pos`: either a bare column number or a point. */
  datatype PosArg = Number(n: int) | Point(xy: XY)

  /** `pos(pos, y?)`: the first argument is dispatched on its type; the second
      (optional) argument is only used when the first is a number. A number
      without a second argument gives NaN in the source, modelled as None. */
  function Pos(p: PosArg, y: Option<int>): (r: Option<int>)
    ensures r.Some? <==> (p.Point? || y.Some?)
  {
    match p
    case Point(xy) => Some(xy.x + xy.y * COLUMNS)
    case Number(x) => if y.Some? then Some(x + y.value * COLUMNS) else None
  }

  /** The object form and the number form give the same index; the object
      form ignores any second argument. */
  lemma PosFormsAgree(x: int, y: int, extra: Option<int>)
    ensures Pos(Point(XY(x, y)), extra) == Pos(Number(x), Some(y))
    ensures Pos(Number(x), Some(y)).Some?
  {
  }

  /** On the configured board the index is row-major: it lies in
      [0, COLUMNS * ROWS) and the column and row are its remainder and
      quotient by COLUMNS. */
  lemma {:induction false} PosRowMajor(x: int, y: int)
    requires 0 <= x < COLUMNS && 0 <= y < ROWS
    ensures Pos(Number(x), Some(y)).Some?
    ensures 0 <= Pos(Number(x), Some(y)).value < COLUMNS * ROWS
    ensures Pos(Number(x), Some(y)).value % COLUMNS == x
    ensures Pos(Number(x), Some(y)).value / COLUMNS == y
  {
    var p := x + y * COLUMNS;
    assert p == y * COLUMNS + x;
    assert p / COLUMNS == y && p % COLUMNS == x by {
      LemmaDivModUnique(p, y, x);
    }
  }

  /** Quotient and remainder by COLUMNS are determined uniquely. */
  lemma LemmaDivModUnique(p: int, q: int, m: int)
    requires 0 <= m < COLUMNS && p == q * COLUMNS + m
    ensures p / COLUMNS == q && p % COLUMNS == m
  {
  }

  /** On the configured board distinct cells have distinct indices. */
  lemma PosInjective(x1: int, y1: int, x2: int, y2: int)
    requires 0 <= x1 < COLUMNS && 0 <= y1 < ROWS
    requires 0 <= x2 < COLUMNS && 0 <= y2 < ROWS
    requires Pos(Number(x1), Some(y1)) == Pos(Number(x2), Some(y2))
    ensures x1 == x2 && y1 == y2
  {
    PosRowMajor(x1, y1);
    PosRowMajor(x2, y2);
  }
}
