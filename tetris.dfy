/** The game state of TetrisWidget and the operations that change it:
    clearing the board, spawning, the collision-checked move, gravity,
    locking, row removal, and the key and timer handlers reduced to their
    effect on the game. Painting, sound, labels, dialogs and timers are not
    part of this model. */
module Tetris {
  import opened Pieces
  import opened Grid

  /** The keys the game reacts to; any other key does nothing to the game. */
  datatype Key = Left | Right | Down | Up | Space | P | Other

  class TetrisWidget {
    var board: array2<int>
    var currentPiece: Piece
    var currentX: int
    var currentY: int
    var score: int
    var isPaused: bool

    ghost predicate Shaped()
      reads this`board
    {
      board.Length0 == BoardHeight && board.Length1 == BoardWidth
    }

    /** The board's contents as rows. */
    ghost function Rows(): (g: seq<seq<int>>)
      reads this`board, board
      requires Shaped()
      ensures IsGrid(g)
      ensures forall r, c :: 0 <= r < BoardHeight && 0 <= c < BoardWidth ==> g[r][c] == board[r, c]
    {
      var b := board;
      seq(BoardHeight, r requires 0 <= r < BoardHeight reads b =>
        seq(BoardWidth, c requires 0 <= c < BoardWidth reads b => b[r, c]))
    }

    /** Every cell is empty or a palette colour, the rows below the playable
        area are empty, and the score is not negative. */
    ghost predicate BoardValid()
      reads this`board, this`score, board
    {
      Shaped() && CellsValid(Rows()) && HiddenRowsEmpty(Rows()) && score >= 0
    }

    /** The active piece is a four-cell piece lying inside the playable columns
        and above row VisibleBoardHeight. */
    ghost predicate PieceValid()
      reads this`currentPiece, this`currentX, this`currentY
    {
      InBounds(currentPiece, currentX, currentY) && CellCount(currentPiece.shape) == 4
    }

    ghost predicate Valid()
      reads this, board
    {
      BoardValid() && PieceValid()
    }

    /** The state pieceDropped leaves when piece p is locked at (x, y) on
        board g with score s0 and piece `index` is spawned: full rows
        removed from the locked board, 10 points per removed row, the new
        piece at the spawn position. */
    ghost predicate LockedAndSpawned(g: seq<seq<int>>, p: Piece, x: int, y: int, s0: int, index: int)
      reads this, board
      requires Shaped() && IsGrid(g) && InBounds(p, x, y) && 0 <= index < 7
    {
      Rows() == Compacted(Lock(g, p, x, y)) && score == s0 + 10 * FullCount(Lock(g, p, x, y)) &&
      currentPiece == Spawned(index) && currentX == SpawnX && currentY == 0
    }

    /** A new game: empty board, score 0, not paused, first piece spawned. */
    constructor (index: int)
      requires 0 <= index < 7
      ensures Valid() && fresh(board)
      ensures Rows() == EmptyGrid() && score == 0 && !isPaused
      ensures currentPiece == Spawned(index) && currentX == SpawnX && currentY == 0
    {
      board := new int[BoardHeight, BoardWidth];
      currentPiece := Spawned(index);
      currentX, currentY, score, isPaused := 0, 0, 0, false;
      new;
      ClearBoard();
      var placed := NewPiece(index);
    }

    method ClearBoard()
      requires Shaped()
      modifies board
      ensures Rows() == EmptyGrid()
    {
      for i := 0 to BoardHeight
        invariant forall r, c :: 0 <= r < i && 0 <= c < BoardWidth ==> board[r, c] == 0
      {
        for j := 0 to BoardWidth
          invariant forall r, c :: 0 <= r < i && 0 <= c < BoardWidth ==> board[r, c] == 0
          invariant forall c :: 0 <= c < j ==> board[i, c] == 0
        {
          board[i, j] := 0;
        }
      }
      GridExt(Rows(), EmptyGrid());
    }

    /** Starts the piece of shape and colour `index` (the random draw) at
        column SpawnX, row 0. The piece is placed there whether or not the
        placement is valid; `placed` reports tryMove's answer, which the game
        uses only to stop its timer. */
    method NewPiece(index: int) returns (placed: bool)
      requires Shaped() && 0 <= index < 7
      modifies this`currentPiece, this`currentX, this`currentY
      ensures currentPiece == Spawned(index) && currentX == SpawnX && currentY == 0
      ensures placed == Fits(Rows(), Spawned(index), SpawnX, 0)
    {
      currentPiece := Spawned(index);
      currentX := BoardWidth / 2 - 2;
      currentY := 0;
      placed := TryMove(currentPiece, currentX, currentY);
    }

    /** Commits newPiece at (newX, newY) exactly when it fits the board;
        otherwise changes nothing. */
    method TryMove(newPiece: Piece, newX: int, newY: int) returns (ok: bool)
      requires Shaped()
      modifies this`currentPiece, this`currentX, this`currentY
      ensures ok == Fits(Rows(), newPiece, newX, newY)
      ensures ok ==> currentPiece == newPiece && currentX == newX && currentY == newY
      ensures !ok ==> currentPiece == old(currentPiece) && currentX == old(currentX) && currentY == old(currentY)
    {
      for i := 0 to 4
        invariant forall i', j' :: 0 <= i' < i && 0 <= j' < 4 && newPiece.shape[i'][j'] != 0 ==>
          0 <= newX + j' < BoardWidth && newY + i' < VisibleBoardHeight &&
          (0 <= newY + i' ==> board[newY + i', newX + j'] == 0)
      {
        for j := 0 to 4
          invariant forall i', j' :: 0 <= i' < i && 0 <= j' < 4 && newPiece.shape[i'][j'] != 0 ==>
            0 <= newX + j' < BoardWidth && newY + i' < VisibleBoardHeight &&
            (0 <= newY + i' ==> board[newY + i', newX + j'] == 0)
          invariant forall j' :: 0 <= j' < j && newPiece.shape[i][j'] != 0 ==>
            0 <= newX + j' < BoardWidth && newY + i < VisibleBoardHeight &&
            (0 <= newY + i ==> board[newY + i, newX + j'] == 0)
        {
          if newPiece.shape[i][j] != 0 {
            var x := newX + j;
            var y := newY + i;
            if x < 0 || x >= BoardWidth || y >= VisibleBoardHeight {
              return false;
            }
            if y >= 0 && board[y, x] != 0 {
              return false;
            }
          }
        }
      }
      currentPiece := newPiece;
      currentX := newX;
      currentY := newY;
      return true;
    }

    /** Drops the active piece as far as it goes, locks it there, removes full
        rows and spawns piece `index`. The requires rules out a lock that
        fills row 0, on which removeFullLines would never return. */
    method DropDown(index: int)
      requires Valid() && 0 <= index < 7
      requires LockKeepsTopRowOpen(Rows(), currentPiece, currentX, LandingY(Rows(), currentPiece, currentX, currentY))
      modifies this`currentPiece, this`currentX, this`currentY, this`score, board
      ensures Valid()
      ensures LockedAndSpawned(old(Rows()), old(currentPiece), old(currentX),
        LandingY(old(Rows()), old(currentPiece), old(currentX), old(currentY)), old(score), index)
    {
      ghost var g0, p0, x0 := Rows(), currentPiece, currentX;
      ghost var land := LandingY(g0, p0, x0, currentY);
      var moving := true;
      while moving
        invariant Valid()
        invariant moving ==> Rows() == g0 && currentPiece == p0 && currentX == x0 && score == old(score)
        invariant moving ==> LandingY(g0, p0, x0, currentY) == land
        invariant !moving ==> LockedAndSpawned(g0, p0, x0, land, old(score), index)
        decreases if moving then VisibleBoardHeight + 1 - currentY else 0
      {
        InBoundsAboveFloor(currentPiece, currentX, currentY);
        moving := OneLineDown(index);
      }
    }

    /** Moves the active piece down one row if it fits there; otherwise locks
        it, removes full rows and spawns piece `index`. */
    method OneLineDown(index: int) returns (moved: bool)
      requires Valid() && 0 <= index < 7
      requires !Fits(Rows(), currentPiece, currentX, currentY + 1) ==>
        LockKeepsTopRowOpen(Rows(), currentPiece, currentX, currentY)
      modifies this`currentPiece, this`currentX, this`currentY, this`score, board
      ensures Valid()
      ensures moved == Fits(old(Rows()), old(currentPiece), old(currentX), old(currentY) + 1)
      ensures moved ==>
        Rows() == old(Rows()) && score == old(score) &&
        currentPiece == old(currentPiece) && currentX == old(currentX) && currentY == old(currentY) + 1
      ensures !moved ==> LockedAndSpawned(old(Rows()), old(currentPiece), old(currentX), old(currentY), old(score), index)
    {
      var ok := TryMove(currentPiece, currentX, currentY + 1);
      if !ok {
        PieceDropped(index);
        return false;
      }
      return true;
    }

    /** Writes the active piece's colour into its cells at rows >= 0, removes
        full rows and spawns piece `index`. */
    method PieceDropped(index: int)
      requires Valid() && 0 <= index < 7
      requires LockKeepsTopRowOpen(Rows(), currentPiece, currentX, currentY)
      modifies this`currentPiece, this`currentX, this`currentY, this`score, board
      ensures Valid()
      ensures LockedAndSpawned(old(Rows()), old(currentPiece), old(currentX), old(currentY), old(score), index)
    {
      ghost var g0 := Rows();
      ghost var locked := Lock(g0, currentPiece, currentX, currentY);
      WritePiece();
      LockKeepsInvariants(g0, currentPiece, currentX, currentY);
      RemoveFullLines();
      CompactedKeepsInvariants(locked);
      assert BoardValid();
      var placed := NewPiece(index);
      SpawnInBounds(currentPiece);
      assert PieceValid();
    }

    /** The writing loop of pieceDropped: each occupied cell of the active
        piece at a row >= 0 receives the piece's colour. */
    method WritePiece()
      requires Shaped() && InBounds(currentPiece, currentX, currentY)
      modifies board
      ensures Rows() == Lock(old(Rows()), currentPiece, currentX, currentY)
    {
      ghost var g0 := Rows();
      ghost var locked := Lock(g0, currentPiece, currentX, currentY);
      for i := 0 to 4
        invariant forall r, c :: 0 <= r < BoardHeight && 0 <= c < BoardWidth ==>
          board[r, c] == if Occupies(currentPiece, currentX, currentY, r, c) && r - currentY < i then currentPiece.color else g0[r][c]
      {
        for j := 0 to 4
          invariant forall r, c :: 0 <= r < BoardHeight && 0 <= c < BoardWidth ==>
            board[r, c] == if Occupies(currentPiece, currentX, currentY, r, c) && (r - currentY < i || (r - currentY == i && c - currentX < j))
              then currentPiece.color else g0[r][c]
        {
          if currentPiece.shape[i][j] != 0 {
            var x := currentX + j;
            var y := currentY + i;
            if y >= 0 {
              board[y, x] := currentPiece.color;
            }
          }
        }
      }
      GridExt(Rows(), locked);
    }

    /** Removes every full row, bottom to top, re-examining an index after
        each shift, and adds 10 per removed row to the score. Row 0 is copied
        down, never cleared. The requires is the loop's termination
        condition: with a full row 0 it never returns (Grid.SweepFullTopRowNeverExits),
        and without one it returns with the board and count that
        Grid.SweepComputesCompacted gives. */
    method RemoveFullLines()
      requires Shaped() && !RowFull(Rows()[0])
      modifies this`score, board
      ensures Rows() == Compacted(old(Rows()))
      ensures score == old(score) + 10 * FullCount(old(Rows()))
    {
      ghost var g0 := Rows();
      ghost var o := BoardHeight;
      PartialAtEnd(g0);
      var numFullLines := 0;
      var y := BoardHeight - 1;
      while y >= 0
        invariant SweepAt(g0, Sweep(Rows(), y, numFullLines), o)
        invariant score == old(score)
        decreases y + 1 + o
      {
        ghost var s := Sweep(Rows(), y, numFullLines);
        ghost var o' := SweepStepKeepsForm(g0, s, o);
        y, numFullLines := SweepOnce(y, numFullLines);
        o := o';
      }
      PartialAtEnd(g0);
      if numFullLines > 0 {
        score := score + 10 * numFullLines;
      }
    }

    /** One iteration of removeFullLines' loop: a full row y is shifted away
        and counted, and y is examined again; otherwise the loop moves up. */
    method SweepOnce(y: int, numFullLines: nat) returns (y': int, numFullLines': nat)
      requires Shaped() && 0 <= y < BoardHeight
      modifies board
      ensures Sweep(Rows(), y', numFullLines') == SweepStep(Sweep(old(Rows()), y, numFullLines))
    {
      var full := IsRowFull(y);
      y', numFullLines' := y - 1, numFullLines;
      if full {
        ShiftRowsDown(y);
        y', numFullLines' := y, numFullLines + 1;
      }
    }

    /** The fullness test of removeFullLines: row y has no empty cell. */
    method IsRowFull(y: int) returns (full: bool)
      requires Shaped() && 0 <= y < BoardHeight
      ensures full == RowFull(Rows()[y])
    {
      full := true;
      var x := 0;
      while x < BoardWidth
        invariant 0 <= x <= BoardWidth
        invariant full && forall c :: 0 <= c < x ==> board[y, c] != 0
      {
        if board[y, x] == 0 {
          full := false;
          break;
        }
        x := x + 1;
      }
    }

    /** The row copy of removeFullLines for a full row y: each row from y up
        to 1 receives the row above it; row 0 is left as it was. */
    method ShiftRowsDown(y: int)
      requires Shaped() && 0 <= y < BoardHeight
      modifies board
      ensures Rows() == Shifted(old(Rows()), y)
    {
      ghost var before := Rows();
      var yy := y;
      while yy > 0
        invariant 0 <= yy <= y
        invariant forall r, c :: 0 <= r < BoardHeight && 0 <= c < BoardWidth ==>
          board[r, c] == if yy < r <= y then before[r - 1][c] else before[r][c]
      {
        forall c | 0 <= c < BoardWidth {
          board[yy, c] := board[yy - 1, c];
        }
        yy := yy - 1;
      }
      ShiftedAt(before, y);
      GridExt(Rows(), Shifted(before, y));
    }

    /** The key handler's effect on the game: while paused only P acts;
        Left and Right shift by one column, Down turns clockwise, Up turns
        anticlockwise, each through TryMove; Space drops; P toggles pause. */
    method KeyPress(key: Key, index: int)
      requires Valid() && 0 <= index < 7
      requires key == Space && !isPaused ==>
        LockKeepsTopRowOpen(Rows(), currentPiece, currentX, LandingY(Rows(), currentPiece, currentX, currentY))
      modifies this, board
      ensures Valid() && board == old(board)
      ensures isPaused == (if key == P then !old(isPaused) else old(isPaused))
      ensures old(isPaused) || key in {P, Other} ==>
        Rows() == old(Rows()) && score == old(score) &&
        currentPiece == old(currentPiece) && currentX == old(currentX) && currentY == old(currentY)
      ensures !old(isPaused) && key in {Left, Right, Down, Up} ==>
        Rows() == old(Rows()) && score == old(score) &&
        var (p, x) := Target(key, old(currentPiece), old(currentX));
        if Fits(old(Rows()), p, x, old(currentY))
        then currentPiece == p && currentX == x && currentY == old(currentY)
        else currentPiece == old(currentPiece) && currentX == old(currentX) && currentY == old(currentY)
      ensures !old(isPaused) && key == Space ==>
        LockedAndSpawned(old(Rows()), old(currentPiece), old(currentX),
          LandingY(old(Rows()), old(currentPiece), old(currentX), old(currentY)), old(score), index)
    {
      if isPaused && key != P {
        return;
      }
      match key
      case P =>
        isPaused := !isPaused;
      case Left =>
        var ok := TryMove(currentPiece, currentX - 1, currentY);
      case Right =>
        var ok := TryMove(currentPiece, currentX + 1, currentY);
      case Down =>
        RotatedRightKeepsCellCount(currentPiece);
        var ok := TryMove(RotatedRight(currentPiece), currentX, currentY);
      case Up =>
        RotatedLeftKeepsCellCount(currentPiece);
        var ok := TryMove(RotatedLeft(currentPiece), currentX, currentY);
      case Space =>
        DropDown(index);
      case Other =>
    }

    /** The gravity tick: nothing while paused, otherwise one OneLineDown. */
    method TimerTick(index: int)
      requires Valid() && 0 <= index < 7
      requires !isPaused && !Fits(Rows(), currentPiece, currentX, currentY + 1) ==>
        LockKeepsTopRowOpen(Rows(), currentPiece, currentX, currentY)
      modifies this`currentPiece, this`currentX, this`currentY, this`score, board
      ensures Valid()
      ensures old(isPaused) ==>
        Rows() == old(Rows()) && score == old(score) &&
        currentPiece == old(currentPiece) && currentX == old(currentX) && currentY == old(currentY)
      ensures !old(isPaused) && Fits(old(Rows()), old(currentPiece), old(currentX), old(currentY) + 1) ==>
        Rows() == old(Rows()) && score == old(score) &&
        currentPiece == old(currentPiece) && currentX == old(currentX) && currentY == old(currentY) + 1
      ensures !old(isPaused) && !Fits(old(Rows()), old(currentPiece), old(currentX), old(currentY) + 1) ==>
        LockedAndSpawned(old(Rows()), old(currentPiece), old(currentX), old(currentY), old(score), index)
    {
      if isPaused {
        return;
      }
      var moved := OneLineDown(index);
    }
  }

  /** The piece and column a translate or rotate key asks TryMove for. */
  function Target(key: Key, p: Piece, x: int): (pieceAndColumn: (Piece, int))
    requires key in {Left, Right, Down, Up}
  {
    match key
    case Left => (p, x - 1)
    case Right => (p, x + 1)
    case Down => (RotatedRight(p), x)
    case Up => (RotatedLeft(p), x)
  }
}
