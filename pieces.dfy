/** Tetromino pieces: a 4x4 occupancy mask plus a colour, the fixed colour
    palette, the seven canonical shapes, and the two rotations. A piece is a
    value: rotating builds a new piece and leaves the original alone. */
module Pieces {

  /** The seven piece colours, in the order the shape table uses them. */
  const Palette: seq<int> := [0x0000FF, 0xFF0000, 0x00FF00, 0xFF00FF, 0xFFFF00, 0x00FFFF, 0xFFA500]

  /** A colour is one of the palette entries; only its identity matters. */
  type Colour = c: int | c in Palette witness 0x0000FF

  predicate IsMask(m: seq<seq<int>>) {
    |m| == 4 && forall i :: 0 <= i < 4 ==> |m[i]| == 4
  }

  /** A 4x4 grid of ints; a non-zero entry is an occupied cell. */
  type Mask = m: seq<seq<int>> | IsMask(m) witness [[0, 0, 0, 0], [0, 0, 0, 0], [0, 0, 0, 0], [0, 0, 0, 0]]

  datatype Piece = Piece(shape: Mask, color: Colour)

  /** Quarter turn clockwise: entry (i, j) of the result is entry (3 - j, i). */
  function RotatedRight(p: Piece): (r: Piece)
    ensures r.color == p.color
  {
    Piece(seq(4, i requires 0 <= i < 4 => seq(4, j requires 0 <= j < 4 => p.shape[3 - j][i])), p.color)
  }

  /** Quarter turn anticlockwise: entry (i, j) of the result is entry (j, 3 - i). */
  function RotatedLeft(p: Piece): (r: Piece)
    ensures r.color == p.color
  {
    Piece(seq(4, i requires 0 <= i < 4 => seq(4, j requires 0 <= j < 4 => p.shape[j][3 - i])), p.color)
  }

  function Bit(v: int): nat { if v != 0 then 1 else 0 }

  function RowCellCount(row: seq<int>): nat
    requires |row| == 4
  {
    Bit(row[0]) + Bit(row[1]) + Bit(row[2]) + Bit(row[3])
  }

  /** Number of occupied cells of a mask. */
  function CellCount(m: Mask): nat {
    RowCellCount(m[0]) + RowCellCount(m[1]) + RowCellCount(m[2]) + RowCellCount(m[3])
  }

  /** Two masks are equal when their sixteen entries are. */
  lemma MaskExt(a: Mask, b: Mask)
    requires forall i, j :: 0 <= i < 4 && 0 <= j < 4 ==> a[i][j] == b[i][j]
    ensures a == b
  {
    forall i | 0 <= i < 4 ensures a[i] == b[i] {
      assert a[i][0] == b[i][0] && a[i][1] == b[i][1] && a[i][2] == b[i][2] && a[i][3] == b[i][3];
    }
  }

  lemma RotateLeftUndoesRight(p: Piece)
    ensures RotatedLeft(RotatedRight(p)) == p
  {
    var r := RotatedLeft(RotatedRight(p));
    forall i, j | 0 <= i < 4 && 0 <= j < 4 ensures r.shape[i][j] == p.shape[i][j] {
      assert RotatedRight(p).shape[j][3 - i] == p.shape[i][j];
    }
    MaskExt(r.shape, p.shape);
  }

  lemma RotateRightUndoesLeft(p: Piece)
    ensures RotatedRight(RotatedLeft(p)) == p
  {
    var r := RotatedRight(RotatedLeft(p));
    forall i, j | 0 <= i < 4 && 0 <= j < 4 ensures r.shape[i][j] == p.shape[i][j] {
      assert RotatedLeft(p).shape[3 - j][i] == p.shape[i][j];
    }
    MaskExt(r.shape, p.shape);
  }

  /** Four clockwise turns bring every piece back to itself. */
  lemma FourRightTurnsIdentity(p: Piece)
    ensures RotatedRight(RotatedRight(RotatedRight(RotatedRight(p)))) == p
  {
    var p1 := RotatedRight(p);
    var p2 := RotatedRight(p1);
    var p3 := RotatedRight(p2);
    var p4 := RotatedRight(p3);
    forall i, j | 0 <= i < 4 && 0 <= j < 4 ensures p4.shape[i][j] == p.shape[i][j] {
      calc {
        p4.shape[i][j];
        p3.shape[3 - j][i];
        p2.shape[3 - i][3 - j];
        p1.shape[j][3 - i];
        p.shape[i][j];
      }
    }
    MaskExt(p4.shape, p.shape);
  }

  lemma RotatedRightKeepsCellCount(p: Piece)
    ensures CellCount(RotatedRight(p).shape) == CellCount(p.shape)
  {
    var m := RotatedRight(p).shape;
    assert RowCellCount(m[0]) == Bit(p.shape[3][0]) + Bit(p.shape[2][0]) + Bit(p.shape[1][0]) + Bit(p.shape[0][0]);
    assert RowCellCount(m[1]) == Bit(p.shape[3][1]) + Bit(p.shape[2][1]) + Bit(p.shape[1][1]) + Bit(p.shape[0][1]);
    assert RowCellCount(m[2]) == Bit(p.shape[3][2]) + Bit(p.shape[2][2]) + Bit(p.shape[1][2]) + Bit(p.shape[0][2]);
    assert RowCellCount(m[3]) == Bit(p.shape[3][3]) + Bit(p.shape[2][3]) + Bit(p.shape[1][3]) + Bit(p.shape[0][3]);
  }

  lemma RotatedLeftKeepsCellCount(p: Piece)
    ensures CellCount(RotatedLeft(p).shape) == CellCount(p.shape)
  {
    RotateRightUndoesLeft(p);
    RotatedRightKeepsCellCount(RotatedLeft(p));
  }

  /** The shape table of newPiece: I, J, L, O, S, T and Z. */
  const Shapes: seq<Mask> := [
    [[1, 1, 1, 1], [0, 0, 0, 0], [0, 0, 0, 0], [0, 0, 0, 0]],
    [[1, 1, 1, 0], [1, 0, 0, 0], [0, 0, 0, 0], [0, 0, 0, 0]],
    [[1, 1, 1, 0], [0, 0, 1, 0], [0, 0, 0, 0], [0, 0, 0, 0]],
    [[1, 1, 0, 0], [1, 1, 0, 0], [0, 0, 0, 0], [0, 0, 0, 0]],
    [[0, 1, 1, 0], [1, 1, 0, 0], [0, 0, 0, 0], [0, 0, 0, 0]],
    [[1, 1, 1, 0], [0, 1, 0, 0], [0, 0, 0, 0], [0, 0, 0, 0]],
    [[1, 1, 0, 0], [0, 1, 1, 0], [0, 0, 0, 0], [0, 0, 0, 0]]
  ]

  /** The piece newPiece starts for a shape index: shape and colour share the index. */
  function Spawned(index: int): (p: Piece)
    requires 0 <= index < 7
    ensures CellCount(p.shape) == 4
    ensures forall i, j :: 0 <= i < 4 && 0 <= j < 4 && p.shape[i][j] != 0 ==> i < 2
  {
    Piece(Shapes[index], Palette[index])
  }
}
