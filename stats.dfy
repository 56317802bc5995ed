/** The live game statistics: integer counters behind get/set pairs, and the
    level and score rules the piece code applies to them. */
module Counters {

  /** The five counters as a value. */
  datatype Counts = Counts(level: int, lines: int, score: int, puzzles: int, actions: int)

  /** The counters right after Stats.reset. */
  const ResetCounts := Counts(1, 0, 0, 0, 0)

  class Stats {
    var level: int
    var lines: int
    var score: int
    /** Pieces placed on the current level. */
    var puzzles: int
    var actions: int

    function Values(): (c: Counts)
      reads this
    {
      Counts(level, lines, score, puzzles, actions)
    }

    /** A new Stats object holds the values of a reset. */
    constructor ()
      ensures Values() == ResetCounts
    {
      level, lines, score, puzzles, actions := 1, 0, 0, 0, 0;
    }

    /** Stats.reset: level 1, every other counter 0. */
    method Reset()
      modifies this
      ensures Values() == ResetCounts
    {
      level := 1;
      lines := 0;
      score := 0;
      puzzles := 0;
      actions := 0;
    }

    /** Stats.start: a reset (the one-second timer is not modelled). */
    method Start()
      modifies this
      ensures Values() == ResetCounts
    {
      Reset();
    }

    method SetScore(s: int)
      modifies this
      ensures GetScore() == s
      ensures Values() == old(Values()).(score := s)
    {
      score := s;
    }

    method SetLevel(l: int)
      modifies this
      ensures GetLevel() == l
      ensures Values() == old(Values()).(level := l)
    {
      level := l;
    }

    method SetLines(i: int)
      modifies this
      ensures GetLines() == i
      ensures Values() == old(Values()).(lines := i)
    {
      lines := i;
    }

    method SetPuzzles(i: int)
      modifies this
      ensures GetPuzzles() == i
      ensures Values() == old(Values()).(puzzles := i)
    {
      puzzles := i;
    }

    method SetActions(i: int)
      modifies this
      ensures GetActions() == i
      ensures Values() == old(Values()).(actions := i)
    {
      actions := i;
    }

    function GetScore(): (v: int) reads this { score }
    function GetLevel(): (v: int) reads this { level }
    function GetLines(): (v: int) reads this { lines }
    function GetPuzzles(): (v: int) reads this { puzzles }
    function GetActions(): (v: int) reads this { actions }
  }

  // ---------------------------------------------------------------------
  // The level rule of Puzzle.place

  /** Pieces to place on `level` before the level goes up. */
  function Threshold(level: int): (n: int) {
    10 + 2 * level
  }

  /** (puzzles, level) after one more piece is placed: the piece count goes
      up, and when it reaches the threshold of the current level the level
      goes up and the count starts again from 0. */
  function AfterPlace(puzzles: int, level: int): (r: (int, int))
    ensures r.1 == level || r.1 == level + 1
    ensures r.1 == level + 1 <==> puzzles + 1 >= Threshold(level)
    ensures r.1 == level ==> r.0 == puzzles + 1
    ensures r.1 == level + 1 ==> r.0 == 0
  {
    if puzzles + 1 >= Threshold(level) then (0, level + 1) else (puzzles + 1, level)
  }

  /** (puzzles, level) after k more pieces. */
  function PlaceMany(k: nat, puzzles: int, level: int): (r: (int, int))
    decreases k
  {
    if k == 0 then (puzzles, level)
    else
      var next := AfterPlace(puzzles, level);
      PlaceMany(k - 1, next.0, next.1)
  }

  /** Starting a level with `p` pieces below its threshold, the next k pieces
      stay on that level as long as the threshold is not reached. */
  lemma {:induction false} PlaceWithinLevel(k: nat, p: int, level: int)
    requires p + k < Threshold(level)
    ensures PlaceMany(k, p, level) == (p + k, level)
    decreases k
  {
    if k > 0 {
      assert AfterPlace(p, level) == (p + 1, level);
      PlaceWithinLevel(k - 1, p + 1, level);
    }
  }

  /** A level entered with a count of 0 is left after exactly
      10 + 2 * level pieces, and the count starts again from 0. */
  lemma LevelUpAfterThreshold(level: int)
    requires level >= 0
    ensures PlaceMany(Threshold(level) - 1, 0, level) == (Threshold(level) - 1, level)
    ensures PlaceMany(Threshold(level), 0, level) == (0, level + 1)
  {
    var t := Threshold(level);
    PlaceWithinLevel(t - 1, 0, level);
    PlaceSplit(t - 1, 1, 0, level);
    assert PlaceMany(1, t - 1, level) == AfterPlace(t - 1, level);
  }

  /** k + j pieces are k pieces followed by j more. */
  lemma {:induction false} PlaceSplit(k: nat, j: nat, p: int, level: int)
    ensures PlaceMany(k + j, p, level) == PlaceMany(j, PlaceMany(k, p, level).0, PlaceMany(k, p, level).1)
    decreases k
  {
    if k > 0 {
      var next := AfterPlace(p, level);
      PlaceSplit(k - 1, j, next.0, next.1);
    }
  }

  /** A freshly reset game (level 1, count 0) levels up on its twelfth piece. */
  lemma FirstLevelUp()
    ensures Threshold(1) == 12
    ensures PlaceMany(11, 0, 1) == (11, 1)
    ensures PlaceMany(12, 0, 1) == (0, 2)
  {
    LevelUpAfterThreshold(1);
  }

  /** The counters after Puzzle.place: the level rule applied to the piece
      count; score, lines and actions untouched. */
  function PlacedCounts(c: Counts): (d: Counts)
    ensures d.score == c.score && d.lines == c.lines && d.actions == c.actions
    ensures (d.puzzles, d.level) == AfterPlace(c.puzzles, c.level)
  {
    var p := AfterPlace(c.puzzles, c.level);
    c.(puzzles := p.0, level := p.1)
  }

  // ---------------------------------------------------------------------
  // Scoring

  /** The score after a lock that cleared k rows on `level`: 1000 points per
      row and level, nothing when no row was cleared. */
  function LockScore(score: int, level: int, k: nat): (s: int)
    ensures k == 0 ==> s == score
    ensures s - score == 1000 * level * k
    ensures level > 0 && k > 0 ==> s >= score + 1000
  {
    if k != 0 then score + 1000 * level * k else score
  }

  /** The counters after a lock that cleared k rows: k more lines and the
      lock score; level, pieces and actions untouched. */
  function LockedCounts(c: Counts, k: nat): (d: Counts)
    ensures d.lines == c.lines + k && d.score == LockScore(c.score, c.level, k)
    ensures d.level == c.level && d.puzzles == c.puzzles && d.actions == c.actions
  {
    c.(lines := c.lines + k, score := LockScore(c.score, c.level, k))
  }

  /** The counters after one soft-drop step on the current level: 5 + level
      points and one more action. */
  function DropCounts(c: Counts): (d: Counts)
    ensures d.score == c.score + 5 + c.level && d.actions == c.actions + 1
    ensures d.level == c.level && d.lines == c.lines && d.puzzles == c.puzzles
  {
    c.(score := c.score + 5 + c.level, actions := c.actions + 1)
  }
}
