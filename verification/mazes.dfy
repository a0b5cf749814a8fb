/** The 7 by 7 maze: a grid of cards, the last card pushed out, and the cell it was
    pushed out of. Maze.cpp is not part of this model, so the shifting done by
    insertAt (whole row or column, per the insertUpSide, insertDownSide,
    insertLeftSide and insertRightSide helpers) is a stated modelling assumption. */
module Mazes {
  import opened Outcomes
  import opened Positions
  import opened MazeCards

  predicate IsSquare(g: seq<seq<Card>>) {
    |g| == SIZE && forall i :: 0 <= i < |g| ==> |g[i]| == SIZE
  }

  /** SIZE rows of SIZE cards; row-major, as the source's cards_[SIZE][SIZE]. */
  type Grid = g: seq<seq<Card>> | IsSquare(g)
    witness seq(SIZE, i => seq(SIZE, j => Card(Shape(true, false, true, false), true)))

  /** `lastExpelledAt` is not a field of the header. The header calls the card pushed
      out "the last inserted card" (`getLastMazeCardInserted`), and insertAt forbids the
      position of that card next: the cell it was pushed out of, which is the far end
      of the line just shifted. None before the first insertion. */
  datatype Maze = Maze(cards: Grid, lastExpelled: Card, lastExpelledAt: Option<Position>)

  function GetCardAt(m: Maze, p: Position): Card
    requires InBounds(p)
  {
    m.cards[p.row][p.column]
  }

  /** Writing a card reads back at that cell, and at no other. */
  function SetCardAt(m: Maze, p: Position, c: Card): (r: Maze)
    requires InBounds(p)
    ensures GetCardAt(r, p) == c
    ensures forall q :: InBounds(q) && q != p ==> GetCardAt(r, q) == GetCardAt(m, q)
    ensures r.lastExpelled == m.lastExpelled && r.lastExpelledAt == m.lastExpelledAt
  {
    m.(cards := m.cards[p.row := m.cards[p.row][p.column := c]])
  }

  /** Reading a cell and writing the card back changes nothing; writing and then
      reading gives the card written there, and the old card everywhere else. */
  lemma ReadThenWriteKeepsMaze(m: Maze, p: Position, q: Position, c: Card)
    requires InBounds(p) && InBounds(q)
    ensures SetCardAt(m, p, GetCardAt(m, p)) == m
    ensures GetCardAt(SetCardAt(m, p, c), q) == if q == p then c else GetCardAt(m, q)
  {
    var row := m.cards[p.row];
    assert row[p.column := row[p.column]] == row;
    assert m.cards[p.row := row] == m.cards;
  }

  /** The card outside the maze, the one pushed out last. In a well-formed maze it is
      movable, so pushing it in keeps the maze well-formed (InsertionPreservesLayout). */
  function GetLastMazeCardInserted(m: Maze): (c: Card)
    ensures WellFormed(m) ==> c.movable
  {
    m.lastExpelled
  }

  /** Out of bounds means: not one of the 49 cells of the maze. */
  function IsOutOfBounds(p: Position): (r: bool)
    ensures r <==> p !in AllPositions()
  {
    p.row >= SIZE || p.column >= SIZE
  }

  /** Inserting from the top: the cell has no neighbour above it. */
  function IsInsertingUp(p: Position): (r: bool)
    ensures InBounds(p) ==> (r <==> Neighbour(p, Up).None?)
  {
    p.row == 0
  }

  /** Inserting from the bottom: the cell has no neighbour below it. */
  function IsInsertingDown(p: Position): (r: bool)
    ensures InBounds(p) ==> (r <==> Neighbour(p, Down).None?)
  {
    p.row == SIZE - 1
  }

  /** Inserting from the left: the cell has no neighbour on its left. */
  function IsInsertingLeft(p: Position): (r: bool)
    ensures InBounds(p) ==> (r <==> Neighbour(p, Left).None?)
  {
    p.column == 0
  }

  predicate IsOnSide(p: Position) {
    p.row == 0 || p.row == SIZE - 1 || p.column == 0 || p.column == SIZE - 1
  }

  /** The side cells are exactly the cells from which some step leaves the maze. */
  lemma SideCellsTouchTheBorder(p: Position)
    requires InBounds(p)
    ensures IsOnSide(p) <==> exists d :: Neighbour(p, d).None?
  {
    if IsOnSide(p) {
      if p.row == 0 {
        assert Neighbour(p, Up).None?;
      } else if p.row == SIZE - 1 {
        assert Neighbour(p, Down).None?;
      } else if p.column == 0 {
        assert Neighbour(p, Left).None?;
      } else {
        assert Neighbour(p, Right).None?;
      }
    }
  }

  /** The side a card is pushed in from. insertAt tries top, bottom and left in this
      order and otherwise inserts from the right. */
  datatype Side = TopSide | BottomSide | LeftSide | RightSide

  function InsertionSide(p: Position): Side {
    if IsInsertingUp(p) then TopSide
    else if IsInsertingDown(p) then BottomSide
    else if IsInsertingLeft(p) then LeftSide
    else RightSide
  }

  /** `q` lies on the row or column that an insertion at `p` shifts. */
  predicate OnLine(p: Position, q: Position) {
    match InsertionSide(p)
    case TopSide => q.column == p.column
    case BottomSide => q.column == p.column
    case LeftSide => q.row == p.row
    case RightSide => q.row == p.row
  }

  /** The far end of the line an insertion at `p` shifts: the card there is pushed out. */
  function OppositeEnd(p: Position): (r: Position)
    requires InBounds(p) && IsOnSide(p)
    ensures InBounds(r) && IsOnSide(r) && r != p && OnLine(p, r)
  {
    match InsertionSide(p)
    case TopSide => Position(SIZE - 1, p.column)
    case BottomSide => Position(0, p.column)
    case LeftSide => Position(p.row, SIZE - 1)
    case RightSide => Position(p.row, 0)
  }

  /** The cell next to `q` on the entry side of the line: after the insertion, `q`
      holds the card that was there. */
  function Behind(p: Position, q: Position): (r: Position)
    requires InBounds(p) && IsOnSide(p) && InBounds(q) && OnLine(p, q) && q != p
    ensures InBounds(r) && OnLine(p, r) && Distance(q, r) == 1
  {
    match InsertionSide(p)
    case TopSide => Position(q.row - 1, q.column)
    case BottomSide => Position(q.row + 1, q.column)
    case LeftSide => Position(q.row, q.column - 1)
    case RightSide => Position(q.row, q.column + 1)
  }

  /** The 16 steady cards sit at even row and even column. */
  predicate IsSteadySpot(p: Position) {
    p.row % 2 == 0 && p.column % 2 == 0
  }

  /** The layout the game keeps: a card is steady exactly at a steady spot, and the
      card outside the maze is movable. */
  ghost predicate WellFormed(m: Maze) {
    && (forall q :: InBounds(q) ==> (GetCardAt(m, q).movable <==> !IsSteadySpot(q)))
    && m.lastExpelled.movable
  }

  /** A card may be pushed in at a side cell holding a movable card, other than the
      cell the last card was pushed out of. Such a cell lies on the border of the maze,
      and in a well-formed maze it is never a steady spot, so never a corner. */
  function IsInserrable(m: Maze, p: Position): (r: bool)
    ensures r ==> InBounds(p) && exists d :: Neighbour(p, d).None?
    ensures r ==> InBounds(p) && GetCardAt(m, p).movable
    ensures InBounds(p) && IsOnSide(p) && GetCardAt(m, p).movable && m.lastExpelledAt != Some(p) ==> r
    ensures r && WellFormed(m) ==> !IsSteadySpot(p)
    ensures r ==> Some(p) != m.lastExpelledAt
  {
    if InBounds(p) && IsOnSide(p) then
      SideCellsTouchTheBorder(p);
      GetCardAt(m, p).movable && m.lastExpelledAt != Some(p)
    else
      false
  }

  function ShiftedCard(g: Grid, p: Position, c: Card, i: nat, j: nat): Card
    requires InBounds(p) && i < SIZE && j < SIZE
  {
    match InsertionSide(p)
    case TopSide => if j != p.column then g[i][j] else if i == 0 then c else g[i - 1][j]
    case BottomSide => if j != p.column then g[i][j] else if i == SIZE - 1 then c else g[i + 1][j]
    case LeftSide => if i != p.row then g[i][j] else if j == 0 then c else g[i][j - 1]
    case RightSide => if i != p.row then g[i][j] else if j == SIZE - 1 then c else g[i][j + 1]
  }

  function Shift(g: Grid, p: Position, c: Card): Grid
    requires InBounds(p)
  {
    seq(SIZE, i requires 0 <= i < SIZE => seq(SIZE, j requires 0 <= j < SIZE => ShiftedCard(g, p, c, i, j)))
  }

  /** What a shift does to each cell: the new card at the entry cell, the card of the
      entry-side neighbour elsewhere on the line, and no change off the line. */
  lemma ShiftMovesLine(g: Grid, p: Position, c: Card)
    requires InBounds(p) && IsOnSide(p)
    ensures Shift(g, p, c)[p.row][p.column] == c
    ensures forall q :: InBounds(q) && !OnLine(p, q) ==> Shift(g, p, c)[q.row][q.column] == g[q.row][q.column]
    ensures forall q :: InBounds(q) && OnLine(p, q) && q != p ==>
      Shift(g, p, c)[q.row][q.column] == g[Behind(p, q).row][Behind(p, q).column]
  {
    var g' := Shift(g, p, c);
    forall q | InBounds(q)
      ensures g'[q.row][q.column] == ShiftedCard(g, p, c, q.row, q.column)
    {
    }
  }

  /** The maze after an insertion, and the card pushed out of it. */
  datatype Insertion = Insertion(maze: Maze, expelled: Card)

  /** Pushes `c` in at `p`. Refused unless `p` is inserrable. On success `c` sits at
      `p`, every other cell of the shifted line holds the card of its neighbour on the
      entry side, cells off that line keep their cards, and the card at the far end
      is pushed out and becomes the last expelled card. */
  function InsertAt(m: Maze, c: Card, p: Position): (r: Result<Insertion>)
    ensures r.Failure? <==> !IsInserrable(m, p)
    ensures r.Failure? ==> r.error == NotInserrable
    ensures r.Success? ==>
      && GetCardAt(r.value.maze, p) == c
      && r.value.expelled == GetCardAt(m, OppositeEnd(p))
      && GetLastMazeCardInserted(r.value.maze) == r.value.expelled
      && r.value.maze.lastExpelledAt == Some(OppositeEnd(p))
    ensures r.Success? ==>
      forall q :: InBounds(q) && !OnLine(p, q) ==> GetCardAt(r.value.maze, q) == GetCardAt(m, q)
    ensures r.Success? ==>
      forall q :: InBounds(q) && OnLine(p, q) && q != p ==>
        GetCardAt(r.value.maze, q) == GetCardAt(m, Behind(p, q))
  {
    if !IsInserrable(m, p) then
      Failure(NotInserrable)
    else
      var out := GetCardAt(m, OppositeEnd(p));
      ShiftMovesLine(m.cards, p, c);
      Success(Insertion(Maze(Shift(m.cards, p, c), out, Some(OppositeEnd(p))), out))
  }

  /** Under the steady layout, the cells where a card can be pushed in are exactly the
      side cells off the steady spots (so never a corner), other than the cell the
      last card was pushed out of. */
  lemma InserrableSpots(m: Maze, p: Position)
    requires WellFormed(m)
    ensures IsInserrable(m, p) <==>
      InBounds(p) && IsOnSide(p) && !IsSteadySpot(p) && m.lastExpelledAt != Some(p)
  {
  }

  /** An inner cell such as (4, 5) is never an insertion point: pushing a card in
      there is refused. */
  lemma InnerCellsAreRefused(m: Maze, c: Card, p: Position)
    requires InBounds(p) && !IsOnSide(p)
    ensures InsertAt(m, c, p) == Failure(NotInserrable)
  {
  }

  /** The anti-reversal rule: right after an insertion, pushing a card in at the
      opposite end of the same line, which would push the inserted card straight back
      out, is refused. */
  lemma ReversalRefused(m: Maze, c: Card, c': Card, p: Position)
    requires IsInserrable(m, p)
    ensures InsertAt(InsertAt(m, c, p).value.maze, c', OppositeEnd(p)) == Failure(NotInserrable)
  {
  }

  /** The line shifted from a movable side cell holds no steady spot. */
  lemma ShiftedLineAvoidsSteadySpots(p: Position, q: Position)
    requires InBounds(p) && IsOnSide(p) && !IsSteadySpot(p)
    requires InBounds(q) && OnLine(p, q)
    ensures !IsSteadySpot(q)
  {
  }

  /** The 16 steady cards stay at the same spot across any insertion. */
  lemma InsertionKeepsSteadyCards(m: Maze, c: Card, p: Position)
    requires WellFormed(m)
    requires IsInserrable(m, p)
    ensures forall q :: InBounds(q) && IsSteadySpot(q) ==>
      GetCardAt(InsertAt(m, c, p).value.maze, q) == GetCardAt(m, q)
  {
    forall q | InBounds(q) && IsSteadySpot(q)
      ensures !OnLine(p, q)
    {
      if OnLine(p, q) {
        ShiftedLineAvoidsSteadySpots(p, q);
      }
    }
  }

  /** Inserting a movable card keeps the steady layout, and the card pushed out is
      movable, so pushing it in next keeps the maze well-formed. */
  lemma InsertionPreservesLayout(m: Maze, c: Card, p: Position)
    requires WellFormed(m) && c.movable
    requires IsInserrable(m, p)
    ensures WellFormed(InsertAt(m, c, p).value.maze)
    ensures InsertAt(m, c, p).value.expelled.movable
  {
    var m' := InsertAt(m, c, p).value.maze;
    ShiftedLineAvoidsSteadySpots(p, OppositeEnd(p));
    forall q | InBounds(q)
      ensures GetCardAt(m', q).movable <==> !IsSteadySpot(q)
    {
      if OnLine(p, q) {
        ShiftedLineAvoidsSteadySpots(p, q);
        if q != p {
          ShiftedLineAvoidsSteadySpots(p, Behind(p, q));
        }
      }
    }
  }

  lemma OppositeSide(p: Position)
    requires InBounds(p) && IsOnSide(p)
    ensures var q := OppositeEnd(p);
      && OppositeEnd(q) == p
      && (InsertionSide(p) == TopSide <==> InsertionSide(q) == BottomSide)
      && (InsertionSide(p) == BottomSide <==> InsertionSide(q) == TopSide)
      && (InsertionSide(p) == LeftSide <==> InsertionSide(q) == RightSide)
      && (InsertionSide(p) == RightSide <==> InsertionSide(q) == LeftSide)
  {
  }

  /** Cell by cell, shifting a line back from its far end undoes the shift. */
  lemma ShiftBackCell(g: Grid, p: Position, c: Card, i: nat, j: nat)
    requires InBounds(p) && IsOnSide(p) && i < SIZE && j < SIZE
    ensures var q := OppositeEnd(p);
      ShiftedCard(Shift(g, p, c), q, g[q.row][q.column], i, j) == g[i][j]
  {
    OppositeSide(p);
    var g' := Shift(g, p, c);
    match InsertionSide(p)
    case TopSide =>
      if j == p.column && i < SIZE - 1 {
        assert g'[i + 1][j] == ShiftedCard(g, p, c, i + 1, j);
      }
    case BottomSide =>
      if j == p.column && i > 0 {
        assert g'[i - 1][j] == ShiftedCard(g, p, c, i - 1, j);
      }
    case LeftSide =>
      if i == p.row && j < SIZE - 1 {
        assert g'[i][j + 1] == ShiftedCard(g, p, c, i, j + 1);
      }
    case RightSide =>
      if i == p.row && j > 0 {
        assert g'[i][j - 1] == ShiftedCard(g, p, c, i, j - 1);
      }
  }

  /** Shifting a line in from one end and then back in from the other end, with the
      card that was pushed out, restores the grid. */
  lemma ShiftBack(g: Grid, p: Position, c: Card)
    requires InBounds(p) && IsOnSide(p)
    ensures var q := OppositeEnd(p);
      Shift(Shift(g, p, c), q, g[q.row][q.column]) == g
  {
    var q := OppositeEnd(p);
    var back := Shift(Shift(g, p, c), q, g[q.row][q.column]);
    forall i | 0 <= i < SIZE
      ensures back[i] == g[i]
    {
      forall j | 0 <= j < SIZE
        ensures back[i][j] == g[i][j]
      {
        ShiftBackCell(g, p, c, i, j);
      }
    }
  }

  /** After inserting a movable card into a well-formed maze, the only side cell off
      the steady spots that is barred is the opposite end of the line just shifted:
      the same position may be used again. */
  lemma OnlyTheOppositeEndIsBarred(m: Maze, c: Card, p: Position, q: Position)
    requires WellFormed(m) && c.movable
    requires IsInserrable(m, p)
    ensures IsInserrable(InsertAt(m, c, p).value.maze, q) <==>
      InBounds(q) && IsOnSide(q) && !IsSteadySpot(q) && q != OppositeEnd(p)
  {
    InsertionPreservesLayout(m, c, p);
    InserrableSpots(InsertAt(m, c, p).value.maze, q);
  }
}
