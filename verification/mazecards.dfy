/** Maze cards: a pathway shape with four openings and a movable flag.
    MazeCardShape.h is not part of this model; a shape is modelled by its four
    openings, and a rotation as a clockwise quarter turn (an assumption). */
module MazeCards {
  import opened Outcomes
  import opened Positions

  /** Which of the four sides of a card a pathway leaves through. */
  datatype Shape = Shape(up: bool, right: bool, down: bool, left: bool)

  function Opening(s: Shape, d: Direction): bool {
    match d
    case Up => s.up
    case Right => s.right
    case Down => s.down
    case Left => s.left
  }

  function OpeningCount(s: Shape): nat {
    (if s.up then 1 else 0) + (if s.right then 1 else 0)
    + (if s.down then 1 else 0) + (if s.left then 1 else 0)
  }

  /** A straight pathway: two openings facing each other. */
  predicate IsStraight(s: Shape) {
    (s.up && s.down && !s.right && !s.left) || (s.right && s.left && !s.up && !s.down)
  }

  /** A corner pathway: two openings on neighbouring sides. */
  predicate IsCorner(s: Shape) {
    OpeningCount(s) == 2 && !IsStraight(s)
  }

  /** A T-junction: three openings. */
  predicate IsTJunction(s: Shape) {
    OpeningCount(s) == 3
  }

  /** Shapes that appear on cards of the game. */
  predicate ValidShape(s: Shape) {
    IsStraight(s) || IsCorner(s) || IsTJunction(s)
  }

  /** A quarter turn clockwise: the opening that faced `d` now faces `Clockwise(d)`. */
  function RotateShape(s: Shape): (r: Shape)
    ensures forall d :: Opening(r, Clockwise(d)) == Opening(s, d)
    ensures OpeningCount(r) == OpeningCount(s)
  {
    Shape(s.left, s.up, s.right, s.down)
  }

  /** Turning a shape does not change what kind of pathway it is. */
  lemma RotationKeepsKind(s: Shape)
    ensures IsStraight(RotateShape(s)) == IsStraight(s)
    ensures IsCorner(RotateShape(s)) == IsCorner(s)
    ensures IsTJunction(RotateShape(s)) == IsTJunction(s)
    ensures ValidShape(RotateShape(s)) == ValidShape(s)
  {
  }

  /** Every valid shape is of exactly one kind. */
  lemma KindsAreExclusive(s: Shape)
    requires ValidShape(s)
    ensures IsStraight(s) ==> !IsCorner(s) && !IsTJunction(s)
    ensures IsCorner(s) ==> !IsTJunction(s)
  {
  }

  datatype Card = Card(shape: Shape, movable: bool)

  /** The MazeCard constructor; the movable flag defaults to true. */
  function NewCard(shape: Shape, isMovable: bool := true): (c: Card)
    ensures c.shape == shape && c.movable == isMovable
  {
    Card(shape, isMovable)
  }

  /** A card is movable exactly when it is the card the constructor builds from its
      shape by default. */
  function IsMovable(c: Card): (r: bool)
    ensures r <==> c == NewCard(c.shape)
  {
    c.movable
  }

  predicate IsGoing(c: Card, d: Direction) {
    Opening(c.shape, d)
  }

  /** The directions a shape leads to, clockwise from the top, each once. */
  function Exits(s: Shape): (r: seq<Direction>)
    ensures |r| == OpeningCount(s)
    ensures forall i, j :: 0 <= i < j < |r| ==> r[i] != r[j]
  {
    (if s.up then [Up] else []) + (if s.right then [Right] else [])
    + (if s.down then [Down] else []) + (if s.left then [Left] else [])
  }

  /** A card goes exactly towards the exits of its shape, so it goes as many ways as
      its shape has openings. */
  lemma GoingDirectionsAreTheExits(c: Card)
    ensures forall d :: IsGoing(c, d) <==> d in Exits(c.shape)
    ensures |Exits(c.shape)| == OpeningCount(c.shape)
  {
  }

  /** The card goes every way but one. */
  ghost predicate GoesAllButOneWay(c: Card) {
    exists d :: !IsGoing(c, d) && forall e :: e != d ==> IsGoing(c, e)
  }

  /** The card goes exactly two ways, on neighbouring sides. */
  ghost predicate GoesTwoNeighbouringWays(c: Card) {
    exists d :: forall e :: IsGoing(c, e) <==> e == d || e == Clockwise(d)
  }

  /** The card goes exactly two ways, facing each other. */
  ghost predicate GoesTwoFacingWays(c: Card) {
    exists d :: forall e :: IsGoing(c, e) <==> e == d || e == OppositeDirection(d)
  }

  /** A T-junction is a shape going every way but one. */
  lemma TJunctionByDirection(c: Card)
    ensures IsTJunction(c.shape) <==> GoesAllButOneWay(c)
  {
    var s := c.shape;
    assert IsGoing(c, Up) == s.up && IsGoing(c, Right) == s.right;
    assert IsGoing(c, Down) == s.down && IsGoing(c, Left) == s.left;
    assert !s.up && IsTJunction(s) ==> forall e :: e != Up ==> IsGoing(c, e);
    assert !s.right && IsTJunction(s) ==> forall e :: e != Right ==> IsGoing(c, e);
    assert !s.down && IsTJunction(s) ==> forall e :: e != Down ==> IsGoing(c, e);
    assert !s.left && IsTJunction(s) ==> forall e :: e != Left ==> IsGoing(c, e);
  }

  /** A corner is a shape going exactly two ways, on neighbouring sides. */
  lemma CornerByDirection(c: Card)
    ensures IsCorner(c.shape) <==> GoesTwoNeighbouringWays(c)
  {
    var s := c.shape;
    assert s == Shape(true, true, false, false) ==> forall e :: IsGoing(c, e) <==> e == Up || e == Clockwise(Up);
    assert s == Shape(false, true, true, false) ==> forall e :: IsGoing(c, e) <==> e == Right || e == Clockwise(Right);
    assert s == Shape(false, false, true, true) ==> forall e :: IsGoing(c, e) <==> e == Down || e == Clockwise(Down);
    assert s == Shape(true, false, false, true) ==> forall e :: IsGoing(c, e) <==> e == Left || e == Clockwise(Left);
    assert IsGoing(c, Up) == s.up && IsGoing(c, Right) == s.right;
    assert IsGoing(c, Down) == s.down && IsGoing(c, Left) == s.left;
  }

  /** A straight is a shape going exactly two ways, facing each other. */
  lemma StraightByDirection(c: Card)
    ensures IsStraight(c.shape) <==> GoesTwoFacingWays(c)
  {
    var s := c.shape;
    assert s == Shape(true, false, true, false) ==> forall e :: IsGoing(c, e) <==> e == Up || e == OppositeDirection(Up);
    assert s == Shape(false, true, false, true) ==> forall e :: IsGoing(c, e) <==> e == Right || e == OppositeDirection(Right);
    assert IsGoing(c, Up) == s.up && IsGoing(c, Right) == s.right;
    assert IsGoing(c, Down) == s.down && IsGoing(c, Left) == s.left;
  }

  /** A T goes every way but one. */
  function IsT(c: Card): (r: bool)
    ensures r <==> GoesAllButOneWay(c)
  {
    TJunctionByDirection(c);
    IsTJunction(c.shape)
  }

  /** An L goes exactly two ways, on neighbouring sides. */
  function IsL(c: Card): (r: bool)
    ensures r <==> GoesTwoNeighbouringWays(c)
  {
    CornerByDirection(c);
    IsCorner(c.shape)
  }

  /** An I goes exactly two ways, facing each other. */
  function IsI(c: Card): (r: bool)
    ensures r <==> GoesTwoFacingWays(c)
  {
    StraightByDirection(c);
    IsStraight(c.shape)
  }

  function IsGoingUp(c: Card): (r: bool)
    ensures r == IsGoing(c, Up)
  {
    c.shape.up
  }

  function IsGoingRight(c: Card): (r: bool)
    ensures r == IsGoing(c, Right)
  {
    c.shape.right
  }

  function IsGoingDown(c: Card): (r: bool)
    ensures r == IsGoing(c, Down)
  {
    c.shape.down
  }

  function IsGoingLeft(c: Card): (r: bool)
    ensures r == IsGoing(c, Left)
  {
    c.shape.left
  }

  /** Rotation of a card: refused on a steady card, otherwise a quarter turn of its
      shape that leaves the movable flag alone. */
  function Rotate(c: Card): (r: Result<Card>)
    ensures r.Failure? <==> !IsMovable(c)
    ensures r.Failure? ==> r.error == NotMovable
    ensures r.Success? ==> IsMovable(r.value)
    ensures r.Success? ==> forall d :: IsGoing(r.value, Clockwise(d)) == IsGoing(c, d)
    ensures r.Success? ==> IsT(r.value) == IsT(c) && IsL(r.value) == IsL(c) && IsI(r.value) == IsI(c)
  {
    if c.movable then
      RotationKeepsKind(c.shape);
      Success(c.(shape := RotateShape(c.shape)))
    else
      Failure(NotMovable)
  }

  /** Four rotations of a movable card bring it back to where it started. */
  lemma FourRotationsRestore(c: Card)
    requires IsMovable(c)
    ensures Rotate(c).Success?
    ensures Rotate(Rotate(c).value).Success?
    ensures Rotate(Rotate(Rotate(c).value).value).Success?
    ensures Rotate(Rotate(Rotate(Rotate(c).value).value).value) == Success(c)
  {
  }

  /** The kind of a card and its openings are read off the shape alone: two cards
      with the same shape answer every query alike, whatever their movable flags. */
  lemma QueriesDependOnShapeOnly(a: Card, b: Card)
    requires a.shape == b.shape
    ensures IsT(a) == IsT(b) && IsL(a) == IsL(b) && IsI(a) == IsI(b)
    ensures forall d :: IsGoing(a, d) == IsGoing(b, d)
  {
  }
}
