/** The falling piece as a value, and the lock step and the timer ticks of
    the piece code as functions on values. */
module Steps {
  import Grid
  import Pieces
  import Counters

  /** The fields of a Puzzle as a value. */
  datatype PieceState = PieceState(
    pieceType: int, nextType: int, running: bool, stopped: bool,
    board: Pieces.Matrix, x: int, y: int)

  /** The piece right after Puzzle.reset: the queued type becomes current,
      `next` is queued, both flags are down, the matrix is empty and the
      anchor is unset (0 stands for JavaScript's null). */
  function ResetState(t: int, next: int): (s: PieceState)
    ensures !Ready(s) && s.pieceType == t && s.nextType == next
    ensures WellFormed(s) <==> 0 <= t < 7 && 0 <= next < 7
  {
    PieceState(t, next, false, false, [], 0, 0)
  }

  /** The piece of type t and shape m right after Puzzle.place on an area
      `w` columns wide: running, matrix m, spawn anchor. */
  function SpawnState(t: int, next: int, m: Pieces.Matrix, w: int, stopped: bool): (s: PieceState)
    ensures s.running && s.board == m && s.pieceType == t
  {
    PieceState(t, next, true, stopped, m, Pieces.SpawnX(w, |m|), Pieces.SpawnY(m))
  }

  /** The piece, the counters and the settled cells after a lock step. */
  datatype Locked = Locked(piece: PieceState, counts: Counters.Counts, cells: Grid.Board)

  /** The lock step on values. The piece of type t (queued type `queued`,
      matrix m, anchor (x, y)) is written into the settled cells g0 with value
      t + 1 and the bottom-up scan of Area.removeFullLines clears the full
      rows below row 0; lines and score are credited on the
      counters c0; the piece is reset with `next` queued, and the queued type
      either spawns, counting one more piece, or, when mayPlace refuses it
      (game over), the reset piece stays idle. */
  ghost function LockOutcome(t: int, queued: int, m: Pieces.Matrix, x: int, y: int,
                             c0: Counters.Counts, g0: Grid.Board, next: int,
                             shapes: seq<Pieces.Matrix>, w: nat): (r: Locked)
    requires w >= 4 && Grid.IsRect(g0, |g0|, w) && |g0| >= 2
    requires Pieces.ShapeTable(shapes) && 0 <= queued < 7
    ensures Grid.IsRect(r.cells, |g0|, w)
    ensures r.piece.pieceType == queued && r.piece.nextType == next
    ensures r.counts.lines >= c0.lines && r.counts.actions == c0.actions
  {
    var g1 := Pieces.Stamp(g0, w, m, x, y, t + 1);
    var cleared := Grid.ClearFrom(g1, |g1| - 1, w);
    SpawnOutcome(ResetState(queued, next), Counters.LockedCounts(c0, cleared.1), cleared.0, shapes, w)
  }

  /** The end of the lock step on values: the reset piece s spawns its type
      on the settled cells g, counting one more piece, when mayPlace accepts
      it, and otherwise stops. */
  ghost function SpawnOutcome(s: PieceState, c: Counters.Counts, g: Grid.Board,
                              shapes: seq<Pieces.Matrix>, w: nat): (r: Locked)
    requires w >= 4 && Pieces.ShapeTable(shapes) && 0 <= s.pieceType < 7
    ensures r.cells == g && r.piece.pieceType == s.pieceType && r.piece.nextType == s.nextType
    ensures r.counts.lines == c.lines && r.counts.score == c.score && r.counts.actions == c.actions
  {
    var spawn := shapes[s.pieceType];
    if Pieces.MayPlaceAt(g, w, spawn, Pieces.SpawnX(w, |spawn|)) then
      Locked(SpawnState(s.pieceType, s.nextType, spawn, w, s.stopped), Counters.PlacedCounts(c), g)
    else
      Locked(s.(running := false), c, g)
  }

  /** One tick of Puzzle.fallDown on values: only a running piece acts; it
      moves one row down when it fits there and locks otherwise. */
  ghost function FallStep(s0: PieceState, c0: Counters.Counts, g0: Grid.Board, next: int,
                          shapes: seq<Pieces.Matrix>, w: nat): (r: Locked)
    requires w >= 4 && Grid.IsRect(g0, |g0|, w) && |g0| >= 2
    requires Pieces.ShapeTable(shapes) && 0 <= s0.nextType < 7
    ensures Grid.IsRect(r.cells, |g0|, w)
    ensures r.counts.lines >= c0.lines && r.counts.actions == c0.actions
  {
    if !s0.running then Locked(s0, c0, g0)
    else if Pieces.Fits(g0, w, s0.board, s0.x, s0.y + 1) then Locked(s0.(y := s0.y + 1), c0, g0)
    else LockOutcome(s0.pieceType, s0.nextType, s0.board, s0.x, s0.y, c0, g0, next, shapes, w)
  }

  /** One tick of Puzzle.forceMoveDown on values: only a piece that is
      neither running nor stopped acts; it moves one row down, scoring a
      drop step, when it fits there, and locks otherwise. */
  ghost function ForceStep(s0: PieceState, c0: Counters.Counts, g0: Grid.Board, next: int,
                           shapes: seq<Pieces.Matrix>, w: nat): (r: Locked)
    requires w >= 4 && Grid.IsRect(g0, |g0|, w) && |g0| >= 2
    requires Pieces.ShapeTable(shapes) && 0 <= s0.nextType < 7
    ensures Grid.IsRect(r.cells, |g0|, w)
    ensures r.counts.lines >= c0.lines && c0.actions <= r.counts.actions <= c0.actions + 1
    ensures r.cells != g0 ==> !s0.running && !s0.stopped
  {
    if s0.running || s0.stopped then Locked(s0, c0, g0)
    else if Pieces.Fits(g0, w, s0.board, s0.x, s0.y + 1) then
      Locked(s0.(y := s0.y + 1), Counters.DropCounts(c0), g0)
    else LockOutcome(s0.pieceType, s0.nextType, s0.board, s0.x, s0.y, c0, g0, next, shapes, w)
  }

  /** What the piece code relies on about the piece itself: both types are
      shape indices, the matrix is square and binary, and a running piece
      has a matrix. */
  ghost predicate WellFormed(s: PieceState) {
    0 <= s.pieceType < 7 && 0 <= s.nextType < 7 &&
    Pieces.IsSquare(s.board) && Pieces.IsBinary(s.board) &&
    (s.running ==> |s.board| > 0)
  }

  /** The lock step credits what it clears: the settled cells become the
      compacted board (full rows below row 0 removed, empty rows inserted
      under row 0), k = the number of those rows is added to lines and
      1000 * level * k to score, exactly w * k blocks disappear, and no row
      below row 0 is left full. */
  lemma LockCredits(t: int, queued: int, m: Pieces.Matrix, x: int, y: int,
                    c0: Counters.Counts, g0: Grid.Board, next: int,
                    shapes: seq<Pieces.Matrix>, w: nat)
    requires w >= 4 && Grid.IsRect(g0, |g0|, w) && |g0| >= 2
    requires Pieces.ShapeTable(shapes) && 0 <= queued < 7
    ensures var g1 := Pieces.Stamp(g0, w, m, x, y, t + 1);
      var r := LockOutcome(t, queued, m, x, y, c0, g0, next, shapes, w);
      r.cells == Grid.Compacted(g1, w) &&
      Grid.Count(r.cells) + w * Grid.FullRowsBelowTop(g1) == Grid.Count(g1)
    ensures var g1 := Pieces.Stamp(g0, w, m, x, y, t + 1);
      var r := LockOutcome(t, queued, m, x, y, c0, g0, next, shapes, w);
      Grid.IsRect(r.cells, |g0|, w) && forall i :: 1 <= i < |g0| ==> !Grid.IsFullRow(r.cells[i])
    ensures var k := Grid.FullRowsBelowTop(Pieces.Stamp(g0, w, m, x, y, t + 1));
      var r := LockOutcome(t, queued, m, x, y, c0, g0, next, shapes, w);
      r.counts.lines == c0.lines + k && r.counts.score == c0.score + 1000 * c0.level * k &&
      r.counts.actions == c0.actions
  {
    var g1 := Pieces.Stamp(g0, w, m, x, y, t + 1);
    var k := Grid.FullRowsBelowTop(g1);
    var c1 := Counters.LockedCounts(c0, k);
    LockIsCompactedSpawn(t, queued, m, x, y, c0, g0, next, shapes, w);
    Grid.CompactedProperties(g1, w);
    assert LockOutcome(t, queued, m, x, y, c0, g0, next, shapes, w).counts.score
        == Counters.LockScore(c0.score, c0.level, k);
  }

  /** The lock step does not depend on the order of the scan: it is the
      spawn step on the compacted board, with the cleared rows credited. */
  lemma LockIsCompactedSpawn(t: int, queued: int, m: Pieces.Matrix, x: int, y: int,
                             c0: Counters.Counts, g0: Grid.Board, next: int,
                             shapes: seq<Pieces.Matrix>, w: nat)
    requires w >= 4 && Grid.IsRect(g0, |g0|, w) && |g0| >= 2
    requires Pieces.ShapeTable(shapes) && 0 <= queued < 7
    ensures var g1 := Pieces.Stamp(g0, w, m, x, y, t + 1);
      LockOutcome(t, queued, m, x, y, c0, g0, next, shapes, w)
        == SpawnOutcome(ResetState(queued, next), Counters.LockedCounts(c0, Grid.FullRowsBelowTop(g1)),
                        Grid.Compacted(g1, w), shapes, w)
  {
    var g1 := Pieces.Stamp(g0, w, m, x, y, t + 1);
    Grid.RemoveFullLinesCompacts(g1, w);
  }

  /** The lock step ends in one of two ways: the queued type spawns at the
      spawn anchor, running, with `next` queued and one more piece counted,
      exactly when mayPlace accepts it on the cleared cells; otherwise the
      game is over and the reset piece is left idle with the level rule
      untouched. */
  lemma LockSpawnsOrEnds(t: int, queued: int, m: Pieces.Matrix, x: int, y: int,
                         c0: Counters.Counts, g0: Grid.Board, next: int,
                         shapes: seq<Pieces.Matrix>, w: nat)
    requires w >= 4 && Grid.IsRect(g0, |g0|, w) && |g0| >= 2
    requires Pieces.ShapeTable(shapes) && 0 <= queued < 7 && 0 <= next < 7
    ensures var r := LockOutcome(t, queued, m, x, y, c0, g0, next, shapes, w);
      var spawn := shapes[queued];
      r.piece.running <==> Pieces.MayPlaceAt(r.cells, w, spawn, Pieces.SpawnX(w, |spawn|))
    ensures var r := LockOutcome(t, queued, m, x, y, c0, g0, next, shapes, w);
      r.piece.pieceType == queued && r.piece.nextType == next && !r.piece.stopped &&
      WellFormed(r.piece)
    ensures var r := LockOutcome(t, queued, m, x, y, c0, g0, next, shapes, w);
      r.piece.running ==>
        r.piece == SpawnState(queued, next, shapes[queued], w, false) &&
        (r.counts.puzzles, r.counts.level) == Counters.AfterPlace(c0.puzzles, c0.level)
    ensures var r := LockOutcome(t, queued, m, x, y, c0, g0, next, shapes, w);
      !r.piece.running ==>
        r.piece == ResetState(queued, next) && r.counts.puzzles == c0.puzzles && r.counts.level == c0.level
  {
    LockIsCompactedSpawn(t, queued, m, x, y, c0, g0, next, shapes, w);
  }

  // ---------------------------------------------------------------------
  // The input handlers of the game

  /** The four guarded key handlers Tetris.up, down, left and right. */
  datatype Move = Turn | Down | Left | Right

  /** A piece accepts input when it is running and not stopped. */
  predicate Ready(s: PieceState) {
    s.running && !s.stopped
  }

  /** The piece a handler tries to reach: turned a quarter to the left, one
      row down, or one column to either side. */
  function Target(k: Move, s: PieceState): (t: PieceState)
    requires Pieces.IsSquare(s.board)
    ensures t.pieceType == s.pieceType && t.nextType == s.nextType
    ensures t.running == s.running && t.stopped == s.stopped
  {
    match k
    case Turn => s.(board := Pieces.Rotated(s.board))
    case Down => s.(y := s.y + 1)
    case Left => s.(x := s.x - 1)
    case Right => s.(x := s.x + 1)
  }

  /** The counters after an accepted handler: one more action, and for the
      soft drop also 5 + level points. */
  function Credit(k: Move, c: Counters.Counts): (r: Counters.Counts) {
    if k == Down then Counters.DropCounts(c) else c.(actions := c.actions + 1)
  }

  /** One key handler on values. Only a ready piece reacts; it moves to the
      target when the target fits and the counters are credited. A refused
      soft drop marks the piece stopped (the side effect of mayMoveDown);
      any other refusal changes nothing. */
  ghost function HandleMove(k: Move, s: PieceState, c: Counters.Counts, g: Grid.Board, w: nat)
    : (r: (PieceState, Counters.Counts))
    requires Grid.IsRect(g, |g|, w) && Pieces.IsSquare(s.board)
    ensures r.0.pieceType == s.pieceType && r.0.nextType == s.nextType && r.0.running == s.running
    ensures r.1.lines == c.lines && r.1.level == c.level && r.1.puzzles == c.puzzles
    ensures r.1.actions <= c.actions + 1
  {
    if !Ready(s) then (s, c)
    else
      var t := Target(k, s);
      if Pieces.Fits(g, w, t.board, t.x, t.y) then (t, Credit(k, c))
      else if k == Down then (s.(stopped := true), c)
      else (s, c)
  }

  /** Whether a handler is accepted: the piece is ready and its target fits. */
  ghost predicate Accepted(k: Move, s: PieceState, g: Grid.Board, w: nat)
    requires Grid.IsRect(g, |g|, w) && Pieces.IsSquare(s.board)
  {
    Ready(s) && Pieces.Fits(g, w, Target(k, s).board, Target(k, s).x, Target(k, s).y)
  }

  /** What a handler does to the counters: an accepted handler adds exactly
      one action, and only the soft drop changes the score, by 5 + level; a
      refused one changes no counter. Level, lines and pieces are never
      touched. */
  lemma HandleMoveCounters(k: Move, s: PieceState, c: Counters.Counts, g: Grid.Board, w: nat)
    requires Grid.IsRect(g, |g|, w) && Pieces.IsSquare(s.board)
    ensures var r := HandleMove(k, s, c, g, w);
      r.1.actions == c.actions + (if Accepted(k, s, g, w) then 1 else 0)
    ensures var r := HandleMove(k, s, c, g, w);
      r.1.score == c.score + (if Accepted(k, s, g, w) && k == Down then 5 + c.level else 0)
    ensures var r := HandleMove(k, s, c, g, w);
      r.1.level == c.level && r.1.lines == c.lines && r.1.puzzles == c.puzzles
    ensures !Accepted(k, s, g, w) ==> HandleMove(k, s, c, g, w).1 == c
  {
  }

  /** A piece that is not ready ignores every handler. */
  lemma HandleMoveGated(k: Move, s: PieceState, c: Counters.Counts, g: Grid.Board, w: nat)
    requires Grid.IsRect(g, |g|, w) && Pieces.IsSquare(s.board) && !Ready(s)
    ensures HandleMove(k, s, c, g, w) == (s, c)
  {
  }

  /** A handler keeps the piece well formed and within the area. */
  lemma HandleMoveKeepsPiece(k: Move, s: PieceState, c: Counters.Counts, g: Grid.Board, w: nat)
    requires Grid.IsRect(g, |g|, w) && WellFormed(s)
    requires Pieces.InBounds(|g|, w, s.board, s.x, s.y)
    ensures var r := HandleMove(k, s, c, g, w);
      WellFormed(r.0) && Pieces.InBounds(|g|, w, r.0.board, r.0.x, r.0.y)
    ensures HandleMove(k, s, c, g, w).0.pieceType == s.pieceType
  {
    var t := Target(k, s);
    if Ready(s) && Pieces.Fits(g, w, t.board, t.x, t.y) {
      Pieces.FitsInBounds(g, w, t.board, t.x, t.y);
      if k == Turn {
        Pieces.RotatePreservesBinary(s.board);
      }
    }
  }

  /** A refused soft drop stops the piece, leaves the counters alone, and
      from then on every handler is ignored. */
  lemma RefusedDownStops(s: PieceState, c: Counters.Counts, g: Grid.Board, w: nat)
    requires Grid.IsRect(g, |g|, w) && Pieces.IsSquare(s.board)
    requires Ready(s) && !Pieces.Fits(g, w, s.board, s.x, s.y + 1)
    ensures HandleMove(Down, s, c, g, w) == (s.(stopped := true), c)
    ensures forall k :: HandleMove(k, s.(stopped := true), c, g, w) == (s.(stopped := true), c)
  {
  }

  /** Tetris.space on values: a ready piece is stopped (running := false)
      and forceMoveDown takes its first step; otherwise nothing happens. */
  ghost function SpaceStep(s: PieceState, c: Counters.Counts, g: Grid.Board, next: int,
                           shapes: seq<Pieces.Matrix>, w: nat): (r: Locked)
    requires w >= 4 && Grid.IsRect(g, |g|, w) && |g| >= 2
    requires Pieces.ShapeTable(shapes) && 0 <= s.nextType < 7
    ensures Grid.IsRect(r.cells, |g|, w)
    ensures r.counts.lines >= c.lines && c.actions <= r.counts.actions <= c.actions + 1
    ensures !Ready(s) ==> r == Locked(s, c, g)
  {
    if Ready(s) then ForceStep(s.(running := false), c, g, next, shapes, w)
    else Locked(s, c, g)
  }

  /** A hard drop in progress ignores input until it locks: each step of
      forceMoveDown on a piece that is neither running nor stopped either
      moves it one row down, still not running, so that every handler
      ignores it, or is the lock step. */
  lemma DropIgnoresInput(s: PieceState, c: Counters.Counts, g: Grid.Board, next: int,
                         shapes: seq<Pieces.Matrix>, w: nat)
    requires w >= 4 && Grid.IsRect(g, |g|, w) && |g| >= 2
    requires Pieces.ShapeTable(shapes) && 0 <= s.nextType < 7
    requires !s.running && !s.stopped
    ensures var r := ForceStep(s, c, g, next, shapes, w);
      (r.piece == s.(y := s.y + 1) && !Ready(r.piece) && r.cells == g) ||
      r == LockOutcome(s.pieceType, s.nextType, s.board, s.x, s.y, c, g, next, shapes, w)
  {
  }
}
