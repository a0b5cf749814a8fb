/** Coordinates on the 7 by 7 maze and the four directions a path can take. */
module Positions {
  import opened Outcomes

  /** Number of rows, and of columns, of the maze. */
  const SIZE: nat := 7

  /** A (row, column) coordinate. Row 0 is the top side, column 0 the left side.
      Both are unsigned in the source, hence `nat`. */
  datatype Position = Position(row: nat, column: nat)

  datatype Direction = Up | Right | Down | Left

  predicate InBounds(p: Position) {
    p.row < SIZE && p.column < SIZE
  }

  /** The 49 cells of the maze. */
  function AllPositions(): (s: set<Position>)
    ensures forall p :: p in s <==> InBounds(p)
  {
    set r: nat, c: nat | r < SIZE && c < SIZE :: Position(r, c)
  }

  function OppositeDirection(d: Direction): Direction {
    match d
    case Up => Down
    case Right => Left
    case Down => Up
    case Left => Right
  }

  /** The direction a quarter turn clockwise from `d`. */
  function Clockwise(d: Direction): Direction {
    match d
    case Up => Right
    case Right => Down
    case Down => Left
    case Left => Up
  }

  function Gap(x: nat, y: nat): nat {
    if x <= y then y - x else x - y
  }

  /** Number of single steps between two cells (Manhattan distance). */
  function Distance(p: Position, q: Position): nat {
    Gap(p.row, q.row) + Gap(p.column, q.column)
  }

  /** The cell one step from `p` in direction `d`, or None when that step leaves the maze. */
  function Neighbour(p: Position, d: Direction): (r: Option<Position>)
    requires InBounds(p)
    ensures r.Some? ==> InBounds(r.value) && Distance(p, r.value) == 1
  {
    match d
    case Up => if p.row == 0 then None else Some(Position(p.row - 1, p.column))
    case Down => if p.row == SIZE - 1 then None else Some(Position(p.row + 1, p.column))
    case Left => if p.column == 0 then None else Some(Position(p.row, p.column - 1))
    case Right => if p.column == SIZE - 1 then None else Some(Position(p.row, p.column + 1))
  }

  /** Stepping back the opposite way returns to the starting cell. */
  lemma NeighbourInverse(p: Position, d: Direction)
    requires InBounds(p)
    ensures Neighbour(p, d).Some? ==> Neighbour(Neighbour(p, d).value, OppositeDirection(d)) == Some(p)
  {
    match d
    case Up =>
    case Down =>
    case Left =>
    case Right =>
  }

  /** Two in-bounds cells one step apart are neighbours in exactly one direction. */
  lemma NeighboursAtDistanceOne(p: Position, q: Position)
    requires InBounds(p) && InBounds(q)
    ensures Distance(p, q) == 1 <==> exists d :: Neighbour(p, d) == Some(q)
  {
    if Distance(p, q) == 1 {
      if q.row + 1 == p.row {
        assert Neighbour(p, Up) == Some(q);
      } else if q.row == p.row + 1 {
        assert Neighbour(p, Down) == Some(q);
      } else if q.column + 1 == p.column {
        assert Neighbour(p, Left) == Some(q);
      } else {
        assert Neighbour(p, Right) == Some(q);
      }
    }
  }

  /** What a MazePosition holds after moveTo(row, column). MazePosition.h is not part of
      this model: as the player tests show, the move is refused outside the maze. */
  function MovePosition(row: nat, column: nat): (r: Result<Position>)
    ensures r.Success? <==> InBounds(Position(row, column))
    ensures r.Failure? ==> r.error == OutOfBounds
    ensures r.Success? ==> r.value.row == row && r.value.column == column
  {
    if row < SIZE && column < SIZE then Success(Position(row, column)) else Failure(OutOfBounds)
  }
}
