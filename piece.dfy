/** The falling piece: a 3 by 3 matrix whose centre and one edge cell are coloured. */
module Piece {
  import opened Grid

  /** Side of the piece matrix. */
  const Size: int := 3

  predicate IsColour(v: int) {
    1 <= v <= Colours
  }

  function EdgeCount(m: Grid): nat
    requires IsGrid(m, 3, 3)
  {
    (if m[0][1] != 0 then 1 else 0) + (if m[1][2] != 0 then 1 else 0) +
    (if m[2][1] != 0 then 1 else 0) + (if m[1][0] != 0 then 1 else 0)
  }

  /** The shape every piece has in every orientation: empty corners, a coloured
      centre and exactly one coloured edge cell. */
  ghost predicate IsPiece(m: Grid) {
    IsGrid(m, 3, 3) &&
    m[0][0] == 0 && m[0][2] == 0 && m[2][0] == 0 && m[2][2] == 0 &&
    IsColour(m[1][1]) && EdgeCount(m) == 1 &&
    (forall i, j :: 0 <= i < 3 && 0 <= j < 3 ==> 0 <= m[i][j] <= Colours)
  }

  /** A freshly made piece: colours `a` and `b` in the middle row, columns 1 and 2. */
  function Fresh(a: int, b: int): Grid {
    [[0, 0, 0], [0, a, b], [0, 0, 0]]
  }

  lemma FreshIsPiece(a: int, b: int)
    requires IsColour(a) && IsColour(b)
    ensures IsPiece(Fresh(a, b))
  {
  }

  /** createPiece, with the two random colours passed in. */
  method CreatePiece(a: int, b: int) returns (m: array2<int>)
    requires IsColour(a) && IsColour(b)
    ensures fresh(m) && m.Length0 == Size && m.Length1 == Size
    ensures Cells(m) == Fresh(a, b)
  {
    m := new int[Size, Size]((i, j) => if i == 1 && j == 1 then a else if i == 1 && j == 2 then b else 0);
    GridExt(Cells(m), Fresh(a, b), 3, 3);
  }
}
