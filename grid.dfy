/** The board as a value: 22 rows of 10 ints, 0 meaning empty. Rows 0..19
    are where pieces can be; rows 20 and 21 lie below that area and no piece
    ever reaches them. This module gives the meaning of each board operation
    of the game (placement test, locking, row compaction) as functions on
    rows, and the facts about them that the game relies on. */
module Grid {
  import opened Pieces

  const BoardWidth := 10
  const VisibleBoardHeight := 20
  const BoardHeight := 22

  /** Column where newPiece puts the mask's left edge. */
  const SpawnX := BoardWidth / 2 - 2

  predicate IsGrid(g: seq<seq<int>>) {
    |g| == BoardHeight && forall r :: 0 <= r < |g| ==> |g[r]| == BoardWidth
  }

  const EmptyRow: seq<int> := [0, 0, 0, 0, 0, 0, 0, 0, 0, 0]

  /** Two boards are equal when all their cells are. */
  lemma GridExt(a: seq<seq<int>>, b: seq<seq<int>>)
    requires IsGrid(a) && IsGrid(b)
    requires forall r, c :: 0 <= r < BoardHeight && 0 <= c < BoardWidth ==> a[r][c] == b[r][c]
    ensures a == b
  {
    forall r | 0 <= r < BoardHeight ensures a[r] == b[r] {
      assert forall c :: 0 <= c < BoardWidth ==> a[r][c] == b[r][c];
    }
  }

  function EmptyGrid(): (g: seq<seq<int>>)
    ensures IsGrid(g) && HiddenRowsEmpty(g) && CellsValid(g)
  {
    seq(BoardHeight, _ => EmptyRow)
  }

  predicate RowValid(row: seq<int>) {
    forall c :: 0 <= c < |row| ==> row[c] == 0 || row[c] in Palette
  }

  /** Every cell is empty or holds a palette colour. */
  predicate CellsValid(g: seq<seq<int>>) {
    forall r :: 0 <= r < |g| ==> RowValid(g[r])
  }

  /** The two rows below the playable area are empty. */
  predicate HiddenRowsEmpty(g: seq<seq<int>>)
    requires IsGrid(g)
  {
    g[VisibleBoardHeight] == EmptyRow && g[VisibleBoardHeight + 1] == EmptyRow
  }

  // ---------- placement ----------

  /** Every occupied cell of p, with the mask's corner at (x, y), lies in a
      column of the board and above row VisibleBoardHeight. */
  predicate InBounds(p: Piece, x: int, y: int) {
    forall i, j :: 0 <= i < 4 && 0 <= j < 4 && p.shape[i][j] != 0 ==>
      0 <= x + j < BoardWidth && y + i < VisibleBoardHeight
  }

  /** The test tryMove applies: in bounds, and no occupied cell at a row
      y + i >= 0 lands on a non-empty board cell. Cells above row 0 are not
      checked against the board. */
  predicate Fits(g: seq<seq<int>>, p: Piece, x: int, y: int)
    requires IsGrid(g)
  {
    InBounds(p, x, y) &&
    forall i, j :: 0 <= i < 4 && 0 <= j < 4 && p.shape[i][j] != 0 && 0 <= y + i ==> g[y + i][x + j] == 0
  }

  /** Board cell (r, c) is covered by an occupied cell of p at (x, y). */
  predicate Occupies(p: Piece, x: int, y: int, r: int, c: int) {
    0 <= r - y < 4 && 0 <= c - x < 4 && p.shape[r - y][c - x] != 0
  }

  lemma HasOccupiedCell(p: Piece) returns (i: int, j: int)
    requires CellCount(p.shape) > 0
    ensures 0 <= i < 4 && 0 <= j < 4 && p.shape[i][j] != 0
  {
    i :| 0 <= i < 4 && RowCellCount(p.shape[i]) > 0;
    j :| 0 <= j < 4 && p.shape[i][j] != 0;
  }

  /** A piece with a cell cannot be placed with its corner at row 20 or below. */
  lemma InBoundsAboveFloor(p: Piece, x: int, y: int)
    requires CellCount(p.shape) > 0 && InBounds(p, x, y)
    ensures y < VisibleBoardHeight
  {
    var i, j := HasOccupiedCell(p);
  }

  /** The spawn position keeps every mask inside columns 3..6 and rows 0..3. */
  lemma SpawnInBounds(p: Piece)
    ensures InBounds(p, SpawnX, 0)
    ensures forall r, c :: Occupies(p, SpawnX, 0, r, c) ==> SpawnX <= c < SpawnX + 4 && 0 <= r < 4
  {
  }

  // ---------- locking ----------

  /** The board after pieceDropped's writing loop: each occupied cell of p at
      a row >= 0 receives p's colour, every other cell is kept. */
  function Lock(g: seq<seq<int>>, p: Piece, x: int, y: int): (r: seq<seq<int>>)
    requires IsGrid(g) && InBounds(p, x, y)
    ensures IsGrid(r)
  {
    seq(BoardHeight, row requires 0 <= row < BoardHeight =>
      seq(BoardWidth, col requires 0 <= col < BoardWidth =>
        if Occupies(p, x, y, row, col) then p.color else g[row][col]))
  }

  /** Locking changes only cells the piece covers, and every cell it covers
      becomes occupied with the piece's colour. */
  lemma LockWritesOnlyPieceCells(g: seq<seq<int>>, p: Piece, x: int, y: int)
    requires IsGrid(g) && InBounds(p, x, y)
    ensures forall r, c :: 0 <= r < BoardHeight && 0 <= c < BoardWidth ==>
      (Lock(g, p, x, y)[r][c] != g[r][c] ==> Occupies(p, x, y, r, c))
    ensures forall r, c :: 0 <= r < BoardHeight && 0 <= c < BoardWidth && Occupies(p, x, y, r, c) ==>
      Lock(g, p, x, y)[r][c] == p.color != 0
  {
  }

  /** Once locked, a piece with a cell on the board can no longer be placed
      where it was locked. */
  lemma {:induction false} LockBlocksSamePlacement(g: seq<seq<int>>, p: Piece, x: int, y: int, i: int, j: int)
    requires IsGrid(g) && InBounds(p, x, y)
    requires 0 <= i < 4 && 0 <= j < 4 && p.shape[i][j] != 0 && 0 <= y + i
    ensures !Fits(Lock(g, p, x, y), p, x, y)
  {
    assert Occupies(p, x, y, y + i, x + j);
    assert Lock(g, p, x, y)[y + i][x + j] == p.color;
  }

  /** Locking keeps every cell empty-or-palette and never writes the two
      hidden rows. */
  lemma LockKeepsInvariants(g: seq<seq<int>>, p: Piece, x: int, y: int)
    requires IsGrid(g) && InBounds(p, x, y)
    requires CellsValid(g) && HiddenRowsEmpty(g)
    ensures CellsValid(Lock(g, p, x, y)) && HiddenRowsEmpty(Lock(g, p, x, y))
  {
    var l := Lock(g, p, x, y);
    forall r | VisibleBoardHeight <= r < BoardHeight ensures l[r] == EmptyRow {
      forall c | 0 <= c < BoardWidth ensures l[r][c] == 0 {
        assert !Occupies(p, x, y, r, c);
        assert g[r] == EmptyRow;
      }
    }
  }

  /** Locking p at (x, y) leaves row 0 with an empty cell, the condition
      under which removeFullLines returns. */
  predicate LockKeepsTopRowOpen(g: seq<seq<int>>, p: Piece, x: int, y: int)
    requires IsGrid(g) && InBounds(p, x, y)
  {
    !RowFull(Lock(g, p, x, y)[0])
  }

  // ---------- gravity ----------

  /** The row where a piece dropped from row y comes to rest: the last row
      reached by successive one-row moves, each of which must pass Fits. */
  function LandingY(g: seq<seq<int>>, p: Piece, x: int, y: int): (r: int)
    requires IsGrid(g) && CellCount(p.shape) > 0
    ensures y <= r && !Fits(g, p, x, r + 1)
    ensures forall k :: y < k <= r ==> Fits(g, p, x, k)
    ensures InBounds(p, x, y) ==> InBounds(p, x, r)
    decreases VisibleBoardHeight - y
  {
    if Fits(g, p, x, y + 1) then
      InBoundsAboveFloor(p, x, y + 1);
      LandingY(g, p, x, y + 1)
    else
      y
  }

  // ---------- row removal ----------

  predicate RowFull(row: seq<int>) {
    forall c :: 0 <= c < |row| ==> row[c] != 0
  }

  function FullCount(g: seq<seq<int>>): nat {
    if |g| == 0 then 0 else (if RowFull(g[0]) then 1 else 0) + FullCount(g[1..])
  }

  /** The rows of g that are not full, in their order. */
  function NonFull(g: seq<seq<int>>): seq<seq<int>> {
    if |g| == 0 then [] else (if RowFull(g[0]) then [] else [g[0]]) + NonFull(g[1..])
  }

  function Copies(row: seq<int>, k: nat): seq<seq<int>> {
    seq(k, _ => row)
  }

  /** The board removeFullLines leaves when row 0 is not full: one copy of the
      old row 0 per removed row on top, then the old non-full rows in order. */
  function Compacted(g: seq<seq<int>>): seq<seq<int>>
    requires |g| > 0
  {
    Copies(g[0], FullCount(g)) + NonFull(g)
  }

  /** One pass of the row shift for a full row y: rows 0..y-1 move down one,
      row y disappears, and row 0 stays where it is. */
  function Shifted(g: seq<seq<int>>, y: int): seq<seq<int>>
    requires 0 <= y < |g|
  {
    [g[0]] + g[..y] + g[y + 1..]
  }

  lemma ShiftedAt(g: seq<seq<int>>, y: int)
    requires 0 <= y < |g|
    ensures |Shifted(g, y)| == |g| && Shifted(g, y)[0] == g[0]
    ensures forall r :: 0 < r <= y ==> Shifted(g, y)[r] == g[r - 1]
    ensures forall r :: y < r < |g| ==> Shifted(g, y)[r] == g[r]
  {
  }

  /** Removing full rows leaves exactly as many rows as there were. */
  lemma {:induction false} NonFullLength(g: seq<seq<int>>)
    ensures |NonFull(g)| + FullCount(g) == |g|
  {
    if |g| > 0 {
      NonFullLength(g[1..]);
    }
  }

  /** Every kept row is a non-full row of g. */
  lemma {:induction false} NonFullRows(g: seq<seq<int>>)
    ensures forall k :: 0 <= k < |NonFull(g)| ==> NonFull(g)[k] in g && !RowFull(NonFull(g)[k])
  {
    if |g| > 0 {
      NonFullRows(g[1..]);
      assert forall row :: row in g[1..] ==> row in g;
    }
  }

  lemma {:induction false} NonFullAppend(a: seq<seq<int>>, b: seq<seq<int>>)
    ensures NonFull(a + b) == NonFull(a) + NonFull(b)
    ensures FullCount(a + b) == FullCount(a) + FullCount(b)
  {
    if |a| > 0 {
      assert (a + b)[1..] == a[1..] + b;
      NonFullAppend(a[1..], b);
    } else {
      assert a + b == b;
    }
  }

  lemma {:induction false} NoFullRowsKeepsAll(g: seq<seq<int>>)
    requires FullCount(g) == 0
    ensures NonFull(g) == g
  {
    if |g| > 0 {
      NoFullRowsKeepsAll(g[1..]);
    }
  }

  /** With row 0 not full, compaction yields a board of the same shape with
      no full row left, made only of rows of the old board. */
  lemma CompactedShape(g: seq<seq<int>>)
    requires IsGrid(g) && !RowFull(g[0])
    ensures IsGrid(Compacted(g))
    ensures forall r :: 0 <= r < |Compacted(g)| ==> Compacted(g)[r] in g && !RowFull(Compacted(g)[r])
  {
    NonFullLength(g);
    NonFullRows(g);
  }

  /** A board without full rows is left as it is. */
  lemma CompactedWithoutFullRows(g: seq<seq<int>>)
    requires |g| > 0 && FullCount(g) == 0
    ensures Compacted(g) == g
  {
    NoFullRowsKeepsAll(g);
  }

  /** Compaction keeps the empty-or-palette invariant and the two empty
      hidden rows. */
  lemma CompactedKeepsInvariants(g: seq<seq<int>>)
    requires IsGrid(g) && !RowFull(g[0]) && CellsValid(g) && HiddenRowsEmpty(g)
    ensures IsGrid(Compacted(g)) && CellsValid(Compacted(g)) && HiddenRowsEmpty(Compacted(g))
  {
    CompactedShape(g);
    var top := g[..VisibleBoardHeight];
    var bottom := [EmptyRow, EmptyRow];
    assert g == top + bottom;
    NonFullAppend(top, bottom);
    assert !RowFull(EmptyRow) by { assert EmptyRow[0] == 0; }
    assert NonFull(bottom) == bottom by {
      assert bottom[1..] == [EmptyRow];
      assert NonFull([EmptyRow]) == [EmptyRow] by { assert [EmptyRow][1..] == []; }
    }
    var c := Compacted(g);
    assert c[|c| - 2..] == bottom;
  }

  /** The board removeFullLines has built when the original rows o.. have
      been examined and n of them were full. */
  function Partial(g: seq<seq<int>>, n: nat, o: int): seq<seq<int>>
    requires 0 < |g| && 0 <= o <= |g|
  {
    Copies(g[0], n) + g[..o] + NonFull(g[o..])
  }

  lemma PartialAtEnd(g: seq<seq<int>>)
    requires 0 < |g|
    ensures Partial(g, 0, |g|) == g
    ensures Partial(g, FullCount(g), 0) == Compacted(g)
  {
    assert g[|g|..] == [] && NonFull([]) == [];
    assert Copies(g[0], 0) == [];
    assert g[..|g|] == g;
    assert g[0..] == g && g[..0] == [];
  }

  /** The row the loop examines at index n + o - 1 is original row o - 1. */
  lemma PartialRow(g: seq<seq<int>>, n: nat, o: int)
    requires 0 < |g| && 0 < o <= |g|
    ensures |Partial(g, n, o)| >= n + o && Partial(g, n, o)[n + o - 1] == g[o - 1]
    ensures Partial(g, n, o)[0] == g[0]
  {
  }

  /** Once all original rows are examined, rows 0..n-1 are copies of row 0. */
  lemma PartialCopy(g: seq<seq<int>>, n: nat, y: int)
    requires 0 < |g| && 0 <= y < n
    ensures Partial(g, n, 0)[y] == g[0]
  {
  }

  /** The row the sweep examines at index y: while original rows remain it is
      original row o - 1, afterwards a copy of row 0; so with row 0 not full a
      full examined row is an original row other than row 0. */
  lemma PartialExamined(g: seq<seq<int>>, n: nat, o: int, b: seq<seq<int>>, y: int)
    requires 0 < |g| && 0 <= o <= |g| && !RowFull(g[0])
    requires b == Partial(g, n, o)
    requires o > 0 ==> y == n + o - 1
    requires o == 0 ==> 0 <= y < n
    ensures 0 <= y < |b| && b[0] == g[0]
    ensures o > 0 ==> b[y] == g[o - 1]
    ensures RowFull(b[y]) ==> 1 < o && RowFull(g[o - 1])
  {
    if o > 0 {
      PartialRow(g, n, o);
    } else {
      PartialCopy(g, n, y);
      PartialCopy(g, n, 0);
    }
  }

  /** A full original row o - 1 is removed by one shift; the count grows by one. */
  lemma {:induction false} PartialRemovesFullRow(g: seq<seq<int>>, n: nat, o: int, b: seq<seq<int>>, y: int)
    requires 1 < o <= |g| && RowFull(g[o - 1])
    requires b == Partial(g, n, o) && y == n + o - 1
    ensures 0 <= y < |b| && Shifted(b, y) == Partial(g, n + 1, o - 1)
    ensures FullCount(g[o - 1..]) == FullCount(g[o..]) + 1
  {
    assert g[o - 1..][1..] == g[o..];
    assert b[..y] == Copies(g[0], n) + g[..o - 1];
    assert b[y + 1..] == NonFull(g[o..]);
    assert [b[0]] + Copies(g[0], n) == Copies(g[0], n + 1);
  }

  /** A non-full original row o - 1 stays where it is. */
  lemma {:induction false} PartialKeepsRow(g: seq<seq<int>>, n: nat, o: int, b: seq<seq<int>>)
    requires 0 < o <= |g| && !RowFull(g[o - 1])
    requires b == Partial(g, n, o)
    ensures b == Partial(g, n, o - 1)
    ensures FullCount(g[o - 1..]) == FullCount(g[o..])
  {
    assert g[o - 1..][1..] == g[o..];
    assert g[..o] == g[..o - 1] + [g[o - 1]];
  }

  // ---------- the row-removal loop as a transition system ----------

  /** The state of removeFullLines' loop: the board, the row index it is
      about to examine, and the number of rows removed so far. */
  datatype Sweep = Sweep(rows: seq<seq<int>>, y: int, lines: nat)

  predicate SweepInv(s: Sweep) {
    IsGrid(s.rows) && -1 <= s.y < BoardHeight
  }

  /** One iteration: a full row at y is shifted away and y is examined again;
      otherwise the loop moves up one row. A negative y means the loop has
      exited. */
  function SweepStep(s: Sweep): (t: Sweep)
    requires SweepInv(s)
    ensures SweepInv(t)
  {
    if s.y < 0 then s
    else if RowFull(s.rows[s.y]) then
      ShiftedAt(s.rows, s.y);
      Sweep(Shifted(s.rows, s.y), s.y, s.lines + 1)
    else Sweep(s.rows, s.y - 1, s.lines)
  }

  function SweepIter(s: Sweep, k: nat): (t: Sweep)
    requires SweepInv(s)
    ensures SweepInv(t)
  {
    if k == 0 then s else SweepStep(SweepIter(s, k - 1))
  }

  /** A full row 0 is never removed and never passed over: whatever the
      number of iterations, the loop is still running. */
  lemma {:induction false} SweepFullTopRowNeverExits(s: Sweep, k: nat)
    requires SweepInv(s) && 0 <= s.y && RowFull(s.rows[0])
    ensures 0 <= SweepIter(s, k).y && SweepIter(s, k).rows[0] == s.rows[0]
  {
    if k > 0 {
      SweepFullTopRowNeverExits(s, k - 1);
      var t := SweepIter(s, k - 1);
      if RowFull(t.rows[t.y]) {
        ShiftedAt(t.rows, t.y);
      }
    }
  }

  function SweepStart(g: seq<seq<int>>): Sweep {
    Sweep(g, BoardHeight - 1, 0)
  }

  /** The loop state after the original rows o.. are examined: the board is
      Partial(g, lines, o), and y is the index of original row o - 1, or,
      once o is 0, an index among the copies of row 0. */
  predicate SweepAt(g: seq<seq<int>>, s: Sweep, o: int) {
    SweepInv(s) && 0 < |g| && 0 <= o <= |g| &&
    s.lines == FullCount(g[o..]) && s.rows == Partial(g, s.lines, o) &&
    (o > 0 ==> s.y + 1 == s.lines + o) && (o == 0 ==> s.y + 1 <= s.lines)
  }

  /** While row 0 is not full, every iteration keeps the loop state in that
      form and makes progress. */
  lemma {:induction false} SweepStepKeepsForm(g: seq<seq<int>>, s: Sweep, o: int) returns (o': int)
    requires IsGrid(g) && !RowFull(g[0]) && SweepAt(g, s, o) && 0 <= s.y
    ensures SweepAt(g, SweepStep(s), o') && SweepStep(s).y + o' < s.y + o
  {
    var n := s.lines;
    PartialExamined(g, n, o, s.rows, s.y);
    if RowFull(s.rows[s.y]) {
      PartialRemovesFullRow(g, n, o, s.rows, s.y);
      ShiftedAt(s.rows, s.y);
      o' := o - 1;
    } else if o > 0 {
      PartialKeepsRow(g, n, o, s.rows);
      o' := o - 1;
    } else {
      o' := 0;
    }
  }

  lemma {:induction false} SweepRuns(g: seq<seq<int>>, k: nat, o: int) returns (k': nat)
    requires IsGrid(g) && !RowFull(g[0]) && SweepInv(SweepStart(g))
    requires SweepAt(g, SweepIter(SweepStart(g), k), o)
    ensures SweepIter(SweepStart(g), k') == Sweep(Compacted(g), -1, FullCount(g))
    decreases SweepIter(SweepStart(g), k).y + 1 + o
  {
    var s := SweepIter(SweepStart(g), k);
    if s.y < 0 {
      PartialAtEnd(g);
      assert g[0..] == g;
      k' := k;
    } else {
      var o' := SweepStepKeepsForm(g, s, o);
      k' := SweepRuns(g, k + 1, o');
    }
  }

  /** With row 0 not full the loop exits, having replaced the board by its
      compaction and counted its full rows. */
  lemma SweepComputesCompacted(g: seq<seq<int>>)
    requires IsGrid(g) && !RowFull(g[0])
    ensures exists k: nat :: SweepIter(SweepStart(g), k) == Sweep(Compacted(g), -1, FullCount(g))
  {
    PartialAtEnd(g);
    assert g[BoardHeight..] == [];
    var k := SweepRuns(g, 0, BoardHeight);
  }
}
