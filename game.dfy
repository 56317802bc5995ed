/** The game object: it owns the statistics and the current puzzle, gates the
    key handlers on the state of the piece, and pauses and resumes play. */
module Game {
  import Grid
  import Pieces
  import Areas
  import Counters
  import Puzzles
  import Steps

  /** The area the game builds: 12 columns by 22 rows. */
  const AreaX: nat := 12
  const AreaY: nat := 22

  /** Tetris.pause on values: from paused, play resumes (the piece runs
      again); from a running piece, the game pauses and the piece stops
      running; otherwise nothing happens. */
  function PauseStep(paused: bool, s: Steps.PieceState): (r: (bool, Steps.PieceState))
    ensures r.1 == s.(running := r.1.running)
    ensures r.0 ==> !r.1.running
    ensures !r.0 && r.0 != paused ==> r.1.running
    ensures r.0 != paused <==> paused || s.running
    ensures !paused && !s.running ==> r == (paused, s)
  {
    if paused then (false, s.(running := true))
    else if !s.running then (paused, s)
    else (true, s.(running := false))
  }

  /** Pausing and resuming brings a running piece back as it was. */
  lemma PauseResume(s: Steps.PieceState)
    requires s.running
    ensures var p := PauseStep(false, s);
      p.0 && PauseStep(p.0, p.1) == (false, s)
  {
    var p := PauseStep(false, s);
    assert p == (true, s.(running := false));
    assert p.1.(running := true) == s;
  }

  /** The game is ready for its first piece: on the empty 12 by 22 area the
      first piece of a new game always spawns, at the spawn anchor, counted
      as the first piece of level 1. */
  lemma FirstPieceSpawns(first: int, next: int)
    requires 0 <= first < 7
    ensures Pieces.ShapeTable(Pieces.Shapes())
    ensures Steps.SpawnOutcome(Steps.ResetState(first, next), Counters.ResetCounts,
                               Grid.Empty(AreaY, AreaX), Pieces.Shapes(), AreaX)
         == Steps.Locked(Steps.SpawnState(first, next, Pieces.Shape(first), AreaX, false),
                         Counters.Counts(1, 0, 0, 1, 0), Grid.Empty(AreaY, AreaX))
  {
    Pieces.ShapesTable();
    Pieces.MayPlaceOnEmpty(AreaY, AreaX, first);
  }

  class Tetris {
    const stats: Counters.Stats
    /** The current puzzle; null before the first game. The area of the
        game is the puzzle's area. */
    var puzzle: Puzzles.Puzzle?
    var paused: bool

    /** The objects of the current game. */
    ghost function Repr(): set<object>
      reads this
    {
      if puzzle != null then {puzzle, puzzle.area, puzzle.area.board} else {}
    }

    /** The puzzle shares the game's statistics and is valid, and a paused
        game holds a piece that has a matrix and is not running. */
    ghost predicate Valid()
      reads this, Repr()
    {
      (paused ==> puzzle != null) &&
      (puzzle != null ==>
         puzzle.stats == stats && puzzle.Valid() &&
         (paused ==> !puzzle.running && |puzzle.board| > 0))
    }

    /** A new game object: statistics at their reset values, no puzzle, not
        paused. */
    constructor ()
      ensures Valid() && fresh(stats)
      ensures puzzle == null && !paused
      ensures stats.Values() == Counters.ResetCounts
    {
      stats := new Counters.Stats();
      puzzle := null;
      paused := false;
    }

    /** Tetris.start without its dialogs: when a game is under way the
        player is asked first, and a refusal changes nothing. Otherwise the
        statistics are reset, a new 12 by 22 area and a new puzzle (types
        `first` and `next`) are built, and the first piece spawns, or the
        game is over at once. */
    method Start(confirmed: bool, first: int, next: int)
      requires Valid() && 0 <= first < 7 && 0 <= next < 7
      modifies this, stats
      ensures Valid()
      ensures old(puzzle) != null && !confirmed ==>
        puzzle == old(puzzle) && paused == old(paused) && stats.Values() == old(stats.Values())
      ensures old(puzzle) == null || confirmed ==>
        puzzle != null && fresh(puzzle) && fresh(puzzle.area) && !paused &&
        puzzle.area.width == AreaX && puzzle.area.height == AreaY &&
        puzzle.puzzles == Pieces.Shapes() &&
        Steps.Locked(puzzle.State(), stats.Values(), puzzle.area.cells)
          == Steps.SpawnOutcome(Steps.ResetState(first, next), Counters.ResetCounts,
                                Grid.Empty(AreaY, AreaX), Pieces.Shapes(), AreaX)
    {
      if puzzle != null && !confirmed {
        return;
      }
      puzzle := null;
      stats.Reset();
      paused := false;
      stats.Start();
      var area := new Areas.Area(AreaX, AreaY);
      var p := new Puzzles.Puzzle(area, stats, first, next);
      puzzle := p;
      var ok := p.MayPlace();
      if ok {
        p.Place();
      } else {
        // Tetris.gameOver is called here in the source, but mayPlace always
        // accepts a shape on an empty area (see FirstPieceSpawns).
        assert false;
      }
    }

    /** Tetris.pause: see PauseStep; with no puzzle nothing happens. */
    method Pause()
      requires Valid()
      modifies this, (if puzzle != null then {puzzle} else {})
      ensures Valid() && puzzle == old(puzzle)
      ensures puzzle == null ==> paused == old(paused)
      ensures puzzle != null ==> (paused, puzzle.State()) == PauseStep(old(paused), old(puzzle.State()))
    {
      if puzzle == null {
        return;
      }
      if paused {
        puzzle.running := true;
        paused := false;
      } else {
        if !puzzle.running {
          return;
        }
        paused := true;
        puzzle.running := false;
      }
    }

    /** Tetris.gameOver: the piece stops running (the statistics timer is not
        modelled). */
    method GameOver()
      requires Valid() && puzzle != null
      modifies puzzle
      ensures Valid()
      ensures puzzle.State() == old(puzzle.State()).(running := false)
    {
      puzzle.Stop();
    }

    /** Tetris.up: a ready piece is turned when the turn fits, for one
        action. */
    method Up()
      requires Valid()
      modifies (if puzzle != null then {puzzle} else {}), stats
      ensures Valid()
      ensures puzzle == null ==> stats.Values() == old(stats.Values())
      ensures puzzle != null ==>
        (puzzle.State(), stats.Values())
          == Steps.HandleMove(Steps.Turn, old(puzzle.State()), old(stats.Values()),
                              old(puzzle.area.cells), puzzle.area.width)
    {
      if puzzle != null && puzzle.running && !puzzle.stopped {
        Steps.HandleMoveKeepsPiece(Steps.Turn, puzzle.State(), stats.Values(), puzzle.area.cells, puzzle.area.width);
        var ok := puzzle.MayRotate();
        if ok {
          puzzle.Rotate();
          stats.SetActions(stats.GetActions() + 1);
        }
      }
    }

    /** Tetris.down: a ready piece moves one row down when it fits, for
        5 + level points and one action; a refusal marks it stopped. */
    method Down()
      requires Valid()
      modifies (if puzzle != null then {puzzle} else {}), stats
      ensures Valid()
      ensures puzzle == null ==> stats.Values() == old(stats.Values())
      ensures puzzle != null ==>
        (puzzle.State(), stats.Values())
          == Steps.HandleMove(Steps.Down, old(puzzle.State()), old(stats.Values()),
                              old(puzzle.area.cells), puzzle.area.width)
    {
      if puzzle != null && puzzle.running && !puzzle.stopped {
        Steps.HandleMoveKeepsPiece(Steps.Down, puzzle.State(), stats.Values(), puzzle.area.cells, puzzle.area.width);
        var ok := puzzle.MayMoveDown();
        if ok {
          stats.SetScore(stats.GetScore() + 5 + stats.GetLevel());
          puzzle.MoveDown();
          stats.SetActions(stats.GetActions() + 1);
        }
      }
    }

    /** Tetris.left: a ready piece moves one column left when it fits, for
        one action. */
    method Left()
      requires Valid()
      modifies (if puzzle != null then {puzzle} else {}), stats
      ensures Valid()
      ensures puzzle == null ==> stats.Values() == old(stats.Values())
      ensures puzzle != null ==>
        (puzzle.State(), stats.Values())
          == Steps.HandleMove(Steps.Left, old(puzzle.State()), old(stats.Values()),
                              old(puzzle.area.cells), puzzle.area.width)
    {
      if puzzle != null && puzzle.running && !puzzle.stopped {
        Steps.HandleMoveKeepsPiece(Steps.Left, puzzle.State(), stats.Values(), puzzle.area.cells, puzzle.area.width);
        var ok := puzzle.MayMoveLeft();
        if ok {
          puzzle.MoveLeft();
          stats.SetActions(stats.GetActions() + 1);
        }
      }
    }

    /** Tetris.right: a ready piece moves one column right when it fits, for
        one action. */
    method Right()
      requires Valid()
      modifies (if puzzle != null then {puzzle} else {}), stats
      ensures Valid()
      ensures puzzle == null ==> stats.Values() == old(stats.Values())
      ensures puzzle != null ==>
        (puzzle.State(), stats.Values())
          == Steps.HandleMove(Steps.Right, old(puzzle.State()), old(stats.Values()),
                              old(puzzle.area.cells), puzzle.area.width)
    {
      if puzzle != null && puzzle.running && !puzzle.stopped {
        Steps.HandleMoveKeepsPiece(Steps.Right, puzzle.State(), stats.Values(), puzzle.area.cells, puzzle.area.width);
        var ok := puzzle.MayMoveRight();
        if ok {
          puzzle.MoveRight();
          stats.SetActions(stats.GetActions() + 1);
        }
      }
    }

    /** Tetris.space: a ready piece is stopped and forceMoveDown takes its
        first step (`next` stands for the type drawn if the piece locks). */
    method Space(next: int)
      requires Valid() && 0 <= next < 7
      modifies Repr(), stats
      ensures Valid()
      ensures puzzle == null ==> stats.Values() == old(stats.Values())
      ensures puzzle != null ==>
        Steps.Locked(puzzle.State(), stats.Values(), puzzle.area.cells)
          == Steps.SpaceStep(old(puzzle.State()), old(stats.Values()), old(puzzle.area.cells),
                             next, puzzle.puzzles, puzzle.area.width)
    {
      if puzzle != null && puzzle.running && !puzzle.stopped {
        puzzle.Stop();
        puzzle.ForceMoveDown(next);
      }
    }
  }
}
