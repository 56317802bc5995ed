/** The settled cells of the playing area as a value: rows of integer cells,
    0 for an empty cell and a positive block type otherwise. This module holds
    the reference definitions the in-place `Area` is proved against. */
module Grid {

  type Row = seq<int>
  type Board = seq<Row>

  /** g has h rows of w cells each. */
  predicate IsRect(g: Board, h: nat, w: nat) {
    |g| == h && forall r :: 0 <= r < h ==> |g[r]| == w
  }

  function ZeroRow(w: nat): (row: Row)
    ensures |row| == w && forall c :: 0 <= c < w ==> row[c] == 0
  {
    seq(w, _ => 0)
  }

  /** The board of a freshly built area: h rows of w empty cells. */
  function Empty(h: nat, w: nat): (g: Board)
    ensures IsRect(g, h, w)
    ensures forall r :: 0 <= r < h ==> g[r] == ZeroRow(w)
    ensures forall r, c :: 0 <= r < h && 0 <= c < w ==> g[r][c] == 0
  {
    seq(h, _ => ZeroRow(w))
  }

  /** Every cell of the row is occupied. */
  predicate IsFullRow(row: Row) {
    forall c :: 0 <= c < |row| ==> row[c] != 0
  }

  /** Two rectangular boards with the same cells are the same board. */
  lemma SameCells(a: Board, b: Board, h: nat, w: nat)
    requires IsRect(a, h, w) && IsRect(b, h, w)
    requires forall r, c :: 0 <= r < h && 0 <= c < w ==> a[r][c] == b[r][c]
    ensures a == b
  {
    forall r | 0 <= r < h ensures a[r] == b[r] {
      assert forall c :: 0 <= c < w ==> a[r][c] == b[r][c];
    }
  }

  // ---------------------------------------------------------------------
  // Counting occupied cells

  /** Number of occupied cells of a row. */
  function RowCount(row: Row): (n: nat)
    ensures n <= |row|
    ensures n == |row| <==> IsFullRow(row)
    ensures n == 0 <==> forall c :: 0 <= c < |row| ==> row[c] == 0
  {
    if row == [] then 0
    else
      var init := row[..|row| - 1];
      assert forall c :: 0 <= c < |init| ==> init[c] == row[c];
      RowCount(init) + (if row[|row| - 1] != 0 then 1 else 0)
  }

  /** Number of occupied cells of a board. */
  function Count(g: Board): (n: nat) {
    if g == [] then 0 else Count(g[..|g| - 1]) + RowCount(g[|g| - 1])
  }

  lemma {:induction false} CountConcat(a: Board, b: Board)
    ensures Count(a + b) == Count(a) + Count(b)
    decreases |b|
  {
    if b != [] {
      var b' := b[..|b| - 1];
      assert (a + b)[..|a + b| - 1] == a + b';
      CountConcat(a, b');
    } else {
      assert a + b == a;
    }
  }

  lemma CountRow(row: Row)
    ensures Count([row]) == RowCount(row)
  {
    assert [row][..0] == [];
  }

  // ---------------------------------------------------------------------
  // Removing one line (Area.removeLine)

  /** The board after row y is removed: its cells vanish, rows 1..y-1 move one
      row down, row 1 becomes empty, and row 0 is never moved. Removing row 0
      only empties row 0. */
  function ShiftDown(g: Board, y: nat, w: nat): (g': Board)
    requires y < |g|
    ensures |g'| == |g|
    ensures forall r :: y < r < |g| ==> g'[r] == g[r]
    ensures y == 0 ==> g'[0] == ZeroRow(w)
    ensures y >= 1 ==> g'[0] == g[0] && g'[1] == ZeroRow(w)
    ensures forall r :: 2 <= r <= y ==> g'[r] == g[r - 1]
    ensures IsRect(g, |g|, w) ==> IsRect(g', |g|, w)
  {
    if y == 0 then [ZeroRow(w)] + g[1..]
    else [g[0]] + [ZeroRow(w)] + g[1..y] + g[y + 1..]
  }

  /** Removing a full row takes exactly w occupied cells off the board. */
  lemma {:induction false} CountShiftDown(g: Board, y: nat, w: nat)
    requires IsRect(g, |g|, w) && y < |g| && IsFullRow(g[y])
    ensures Count(ShiftDown(g, y, w)) + w == Count(g)
  {
    var z := ZeroRow(w);
    assert RowCount(z) == 0;
    CountRow(z);
    CountRow(g[y]);
    assert g == g[..y] + [g[y]] + g[y + 1..];
    CountConcat(g[..y] + [g[y]], g[y + 1..]);
    CountConcat(g[..y], [g[y]]);
    if y == 0 {
      assert ShiftDown(g, y, w) == [z] + g[1..];
      CountConcat([z], g[1..]);
      assert g[..0] == [];
    } else {
      var s := ShiftDown(g, y, w);
      assert s == [g[0]] + [z] + g[1..y] + g[y + 1..];
      assert g[..y] == [g[0]] + g[1..y];
      CountConcat([g[0]] + [z] + g[1..y], g[y + 1..]);
      CountConcat([g[0]] + [z], g[1..y]);
      CountConcat([g[0]], [z]);
      CountConcat([g[0]], g[1..y]);
    }
  }

  // ---------------------------------------------------------------------
  // Removing every full line (Area.removeFullLines)

  /** The scan of Area.removeFullLines from row y up to row 1: a full row is
      removed and the same row index is tested again, otherwise the scan moves
      one row up. Yields the resulting board and the number of rows removed.
      Row 0 is never tested. */
  function ClearFrom(g: Board, y: int, w: nat): (res: (Board, nat))
    requires w > 0 && IsRect(g, |g|, w) && y < |g|
    ensures IsRect(res.0, |g|, w)
    decreases Count(g), y
  {
    if y <= 0 then (g, 0)
    else if IsFullRow(g[y]) then
      CountShiftDown(g, y, w);
      var next := ClearFrom(ShiftDown(g, y, w), y, w);
      (next.0, next.1 + 1)
    else ClearFrom(g, y - 1, w)
  }

  /** Number of full rows in s. */
  function FullCount(s: Board): (n: nat)
    ensures n <= |s|
  {
    if s == [] then 0
    else FullCount(s[..|s| - 1]) + (if IsFullRow(s[|s| - 1]) then 1 else 0)
  }

  /** The rows of s that are not full, in their original order. */
  function Keep(s: Board): (k: Board)
    ensures |k| + FullCount(s) == |s|
    ensures forall i :: 0 <= i < |k| ==> !IsFullRow(k[i])
  {
    if s == [] then []
    else Keep(s[..|s| - 1]) + (if IsFullRow(s[|s| - 1]) then [] else [s[|s| - 1]])
  }


  /** Reference definition of a cleared board, independent of the scan order:
      row 0 stays, the full rows among rows 1.. disappear, the other rows keep
      their order and sink to the bottom, and empty rows fill the top. */
  function Compacted(g: Board, w: nat): (c: Board)
  {
    if g == [] then [] else [g[0]] + Empty(FullCount(g[1..]), w) + Keep(g[1..])
  }

  /** Number of full rows the clear removes: full rows below the top row. */
  function FullRowsBelowTop(g: Board): (n: nat) {
    if g == [] then 0 else FullCount(g[1..])
  }

  lemma {:induction false} FullCountKeepConcat(a: Board, b: Board)
    ensures FullCount(a + b) == FullCount(a) + FullCount(b)
    ensures Keep(a + b) == Keep(a) + Keep(b)
    decreases |b|
  {
    if b == [] {
      assert a + b == a;
    } else {
      var b' := b[..|b| - 1];
      assert (a + b)[..|a + b| - 1] == a + b';
      FullCountKeepConcat(a, b');
    }
  }

  lemma FullCountKeepSingle(row: Row)
    ensures FullCount([row]) == (if IsFullRow(row) then 1 else 0)
    ensures Keep([row]) == (if IsFullRow(row) then [] else [row])
  {
    assert [row][..0] == [];
  }

  /** The board once rows 1..y are compacted: row 0, then one empty row per
      full row among rows 1..y, then the rows of 1..y that are not full, then
      the rows below y untouched. */
  function PartlyCompacted(g: Board, y: nat, w: nat): (p: Board)
    requires y < |g|
  {
    [g[0]] + Empty(FullCount(g[1..y + 1]), w) + Keep(g[1..y + 1]) + g[y + 1..]
  }

  /** The scan from row y equals the reference compaction of rows 1..y, and
      counts the full rows among them. */
  lemma {:induction false} ClearFromCompacts(g: Board, y: int, w: nat)
    requires w > 0 && IsRect(g, |g|, w) && 0 <= y < |g|
    ensures ClearFrom(g, y, w) == (PartlyCompacted(g, y, w), FullCount(g[1..y + 1]))
    decreases Count(g), y
  {
    if y == 0 {
      assert g[1..1] == [];
      assert Empty(0, w) == [] && Keep([]) == [] && FullCount([]) == 0;
      assert g == [g[0]] + g[1..];
      assert PartlyCompacted(g, 0, w) == g;
      assert ClearFrom(g, 0, w) == (g, 0);
    } else if IsFullRow(g[y]) {
      CountShiftDown(g, y, w);
      ClearFromCompacts(ShiftDown(g, y, w), y, w);
      CompactsFullCase(g, y, w);
    } else {
      ClearFromCompacts(g, y - 1, w);
      CompactsSkipCase(g, y, w);
    }
  }

  /** ClearFromCompacts at a full row y, from the claim for the board with
      row y removed. */
  lemma CompactsFullCase(g: Board, y: int, w: nat)
    requires w > 0 && IsRect(g, |g|, w) && 0 < y < |g| && IsFullRow(g[y])
    requires var g' := ShiftDown(g, y, w);
      ClearFrom(g', y, w) == (PartlyCompacted(g', y, w), FullCount(g'[1..y + 1]))
    ensures ClearFrom(g, y, w) == (PartlyCompacted(g, y, w), FullCount(g[1..y + 1]))
  {
    ClearFromFullStep(g, y, w);
    CompactsAfterShift(g, y, w);
  }

  /** ClearFromCompacts at a row y that is not full, from the claim for
      row y - 1. */
  lemma CompactsSkipCase(g: Board, y: int, w: nat)
    requires w > 0 && IsRect(g, |g|, w) && 0 < y < |g| && !IsFullRow(g[y])
    requires ClearFrom(g, y - 1, w) == (PartlyCompacted(g, y - 1, w), FullCount(g[1..y]))
    ensures ClearFrom(g, y, w) == (PartlyCompacted(g, y, w), FullCount(g[1..y + 1]))
  {
    ClearFromSkipStep(g, y, w);
    CompactsSkipRow(g, y, w);
  }

  /** Inductive step of ClearFromCompacts when row y is full. */
  lemma CompactsAfterShift(g: Board, y: int, w: nat)
    requires w > 0 && IsRect(g, |g|, w) && 0 < y < |g| && IsFullRow(g[y])
    ensures PartlyCompacted(ShiftDown(g, y, w), y, w) == PartlyCompacted(g, y, w)
    ensures FullCount(ShiftDown(g, y, w)[1..y + 1]) + 1 == FullCount(g[1..y + 1])
  {
    var z := ZeroRow(w);
    assert !IsFullRow(z) by { assert z[0] == 0; }
    var mid := g[1..y];
    assert g[1..y + 1] == mid + [g[y]];
    FullCountKeepConcat(mid, [g[y]]);
    FullCountKeepSingle(g[y]);
    var g' := ShiftDown(g, y, w);
    ShiftDownParts(g, y, w);
    FullCountKeepConcat([z], mid);
    FullCountKeepSingle(z);
    EmptyAbsorb([g[0]], FullCount(mid), w, Keep(mid), g[y + 1..]);
  }

  /** The pieces of a board after a row y > 0 is removed. */
  lemma ShiftDownParts(g: Board, y: int, w: nat)
    requires 0 < y < |g|
    ensures ShiftDown(g, y, w)[0] == g[0]
    ensures ShiftDown(g, y, w)[1..y + 1] == [ZeroRow(w)] + g[1..y]
    ensures ShiftDown(g, y, w)[y + 1..] == g[y + 1..]
  {
    var g' := ShiftDown(g, y, w);
    assert g' == [g[0]] + [ZeroRow(w)] + g[1..y] + g[y + 1..];
  }

  /** An empty row in front of the kept rows joins the block of empty rows. */
  lemma EmptyAbsorb(top: Board, n: nat, w: nat, k: Board, rest: Board)
    ensures top + Empty(n, w) + ([ZeroRow(w)] + k) + rest == top + Empty(n + 1, w) + k + rest
  {
    assert Empty(n, w) + [ZeroRow(w)] == Empty(n + 1, w);
    ConcatAssoc(top + Empty(n, w), [ZeroRow(w)], k);
    ConcatAssoc(top, Empty(n, w), [ZeroRow(w)]);
  }

  /** Inductive step of ClearFromCompacts when row y is not full. */
  lemma CompactsSkipRow(g: Board, y: int, w: nat)
    requires w > 0 && IsRect(g, |g|, w) && 0 < y < |g| && !IsFullRow(g[y])
    ensures PartlyCompacted(g, y - 1, w) == PartlyCompacted(g, y, w)
    ensures FullCount(g[1..y]) == FullCount(g[1..y + 1])
  {
    var mid := g[1..y];
    var row := g[y];
    var rest := g[y + 1..];
    assert g[1..y + 1] == mid + [row];
    FullCountKeepConcat(mid, [row]);
    FullCountKeepSingle(row);
    assert g[y..] == [row] + rest;
    var head := [g[0]] + Empty(FullCount(mid), w);
    assert y - 1 + 1 == y;
    assert PartlyCompacted(g, y - 1, w) == head + Keep(mid) + ([row] + rest);
    assert PartlyCompacted(g, y, w) == head + (Keep(mid) + [row]) + rest;
    ConcatAssoc(head, Keep(mid), [row]);
    ConcatAssoc(head + Keep(mid), [row], rest);
  }

  lemma ConcatAssoc(a: Board, b: Board, c: Board)
    ensures (a + b) + c == a + (b + c)
  {
  }

  /** removeFullLines, run over the whole board, produces the reference
      compaction and reports how many full rows there were below row 0. */
  lemma RemoveFullLinesCompacts(g: Board, w: nat)
    requires w > 0 && IsRect(g, |g|, w)
    ensures ClearFrom(g, |g| - 1, w) == (Compacted(g, w), FullRowsBelowTop(g))
  {
    if g != [] {
      ClearFromCompacts(g, |g| - 1, w);
      assert g[1..|g| - 1 + 1] == g[1..];
      assert g[|g| - 1 + 1..] == [];
      var c := [g[0]] + Empty(FullCount(g[1..]), w) + Keep(g[1..]);
      assert c + [] == c;
      assert PartlyCompacted(g, |g| - 1, w) == Compacted(g, w);
    }
  }

  /** Each full row holds w occupied cells, so dropping the full rows of s
      takes w of them per row. */
  lemma {:induction false} KeepCount(s: Board, w: nat)
    requires IsRect(s, |s|, w)
    ensures Count(Keep(s)) + w * FullCount(s) == Count(s)
    decreases |s|
  {
    if s != [] {
      var init := s[..|s| - 1];
      var last := s[|s| - 1];
      assert IsRect(init, |init|, w);
      KeepCount(init, w);
      var k := Keep(init);
      var f := FullCount(init);
      assert Count(k) + w * f == Count(init);
      assert Count(s) == Count(init) + RowCount(last);
      if IsFullRow(last) {
        assert Keep(s) == k;
        assert RowCount(last) == w;
        assert FullCount(s) == f + 1;
        MulSucc(w, f);
        assert w * FullCount(s) == w * f + w;
      } else {
        assert Keep(s) == k + [last];
        assert FullCount(s) == f;
        CountSnoc(k, last);
        assert Count(Keep(s)) == Count(k) + RowCount(last);
        assert w * FullCount(s) == w * f;
      }
    }
  }

  lemma CountSnoc(s: Board, row: Row)
    ensures Count(s + [row]) == Count(s) + RowCount(row)
  {
    assert (s + [row])[..|s|] == s;
  }

  /** The rows Keep retains are rows of s, so they have its width. */
  lemma {:induction false} KeepRect(s: Board, w: nat)
    requires IsRect(s, |s|, w)
    ensures IsRect(Keep(s), |Keep(s)|, w)
    decreases |s|
  {
    if s != [] {
      var init := s[..|s| - 1];
      assert IsRect(init, |init|, w);
      KeepRect(init, w);
    }
  }

  lemma MulSucc(w: nat, k: nat)
    ensures w * (k + 1) == w * k + w
  {
  }

  /** Empty rows hold no blocks. */
  lemma {:induction false} EmptyCount(n: nat, w: nat)
    ensures Count(Empty(n, w)) == 0
    decreases n
  {
    if n > 0 {
      assert Empty(n, w)[..n - 1] == Empty(n - 1, w);
      EmptyCount(n - 1, w);
      assert RowCount(ZeroRow(w)) == 0;
    }
  }

  /** The reference compaction keeps every block of the rows that are not
      full and of row 0: w blocks are gone per full row below row 0. */
  lemma CompactedCount(g: Board, w: nat)
    requires IsRect(g, |g|, w)
    ensures Count(Compacted(g, w)) + w * FullRowsBelowTop(g) == Count(g)
  {
    if g != [] {
      var z := Empty(FullCount(g[1..]), w);
      var k := Keep(g[1..]);
      KeepCount(g[1..], w);
      EmptyCount(FullCount(g[1..]), w);
      assert Compacted(g, w) == [g[0]] + z + k;
      CountConcat([g[0]] + z, k);
      CountConcat([g[0]], z);
      assert g == [g[0]] + g[1..];
      CountConcat([g[0]], g[1..]);
      assert Count(Compacted(g, w)) == Count([g[0]]) + Count(k);
      assert Count(g) == Count([g[0]]) + Count(g[1..]);
    }
  }

  /** One step of the scan at a full row: the row is removed and the scan
      continues at the same index with one more row counted. */
  lemma ClearFromFullStep(g: Board, y: int, w: nat)
    requires w > 0 && IsRect(g, |g|, w) && 0 < y < |g| && IsFullRow(g[y])
    ensures ClearFrom(ShiftDown(g, y, w), y, w).0 == ClearFrom(g, y, w).0
    ensures ClearFrom(ShiftDown(g, y, w), y, w).1 + 1 == ClearFrom(g, y, w).1
  {
  }

  /** One step of the scan at a row that is not full: the scan moves up. */
  lemma ClearFromSkipStep(g: Board, y: int, w: nat)
    requires w > 0 && IsRect(g, |g|, w) && 0 < y < |g| && !IsFullRow(g[y])
    ensures ClearFrom(g, y - 1, w) == ClearFrom(g, y, w)
  {
  }

  /** The scan stops at row 0. */
  lemma ClearFromNoScan(g: Board, y: int, w: nat)
    requires w > 0 && IsRect(g, |g|, w) && y <= 0 && y < |g|
    ensures ClearFrom(g, y, w) == (g, 0)
  {
  }


  /** A scan over rows none of which is full changes nothing. */
  lemma {:induction false} ClearFromNoFull(g: Board, y: int, w: nat)
    requires w > 0 && IsRect(g, |g|, w) && y < |g|
    requires forall r :: 1 <= r <= y ==> !IsFullRow(g[r])
    ensures ClearFrom(g, y, w) == (g, 0)
    decreases y
  {
    if y > 0 {
      ClearFromNoFull(g, y - 1, w);
    }
  }

  /** After the clear, row 0 is what it was, no row from 1 on is full, and the
      number of occupied cells dropped by w for every row removed. */
  lemma CompactedProperties(g: Board, w: nat)
    requires w > 0 && IsRect(g, |g|, w)
    ensures IsRect(Compacted(g, w), |g|, w)
    ensures g != [] ==> Compacted(g, w)[0] == g[0]
    ensures forall r :: 1 <= r < |g| ==> !IsFullRow(Compacted(g, w)[r])
    ensures Count(Compacted(g, w)) + w * FullRowsBelowTop(g) == Count(g)
  {
    CompactedCount(g, w);
    if g != [] {
      CompactedShape(g, w);
      CompactedNoFull(g, w);
    }
  }

  lemma CompactedShape(g: Board, w: nat)
    requires IsRect(g, |g|, w) && g != []
    ensures IsRect(Compacted(g, w), |g|, w) && Compacted(g, w)[0] == g[0]
  {
    var z := Empty(FullCount(g[1..]), w);
    var k := Keep(g[1..]);
    KeepRect(g[1..], w);
    RectConcat([g[0]], z, w);
    RectConcat([g[0]] + z, k, w);
  }

  lemma RectConcat(a: Board, b: Board, w: nat)
    requires IsRect(a, |a|, w) && IsRect(b, |b|, w)
    ensures IsRect(a + b, |a| + |b|, w)
  {
  }

  lemma CompactedNoFull(g: Board, w: nat)
    requires w > 0 && IsRect(g, |g|, w) && g != []
    ensures forall r :: 1 <= r < |g| ==> !IsFullRow(Compacted(g, w)[r])
  {
    var c := Compacted(g, w);
    var n := FullCount(g[1..]);
    var z := Empty(n, w);
    var k := Keep(g[1..]);
    assert c == [g[0]] + z + k;
    forall r | 1 <= r < |g| ensures !IsFullRow(c[r]) {
      if r <= n {
        assert c[r] == z[r - 1] == ZeroRow(w);
        assert c[r][0] == 0;
      } else {
        assert c[r] == k[r - 1 - n];
      }
    }
  }

  /** Clearing twice in a row: the second clear removes nothing. */
  lemma RemoveFullLinesIdempotent(g: Board, w: nat)
    requires w > 0 && IsRect(g, |g|, w)
    ensures IsRect(Compacted(g, w), |g|, w) && ClearFrom(Compacted(g, w), |g| - 1, w) == (Compacted(g, w), 0)
  {
    CompactedProperties(g, w);
    ClearFromNoFull(Compacted(g, w), |g| - 1, w);
  }
}
