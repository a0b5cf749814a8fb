/** A player of the turn-phase game: a colour, a position in the maze, the phase of the
    current turn, and a deck of objectives with a current one. The source's current
    objective is a pointer into the player's own deck; here it is the index of that card. */
module Players {
  import opened Outcomes
  import opened Positions
  import opened Objectives

  /** The four colours, in the order of the source's enumeration. */
  datatype Color = Red | Blue | Yellow | Green

  /** The phases of a turn: waiting, then ready to move the piece once the pathways
      have been moved, then done. */
  datatype State = Waiting | ReadyToMove | Done

  datatype Player = Player(
    color: Color,
    position: Position,
    state: State,
    objectives: Deck,
    current: Option<nat>)

  /** The current objective, when there is one, is a card of the player's deck. */
  predicate Valid(p: Player) {
    p.current.Some? ==> p.current.value < |p.objectives|
  }

  /** A new player waits, stands at the given position (the top-left corner by
      default) and has no objective yet. */
  function NewPlayer(color: Color, position: Position := Position(0, 0)): (p: Player)
    ensures Valid(p)
    ensures p.color == color && p.position == position && p.state == Waiting
    ensures p.objectives == [] && p.current.None?
  {
    Player(color, position, Waiting, [], None)
  }

  /** The default-constructed player: blue. MazePosition.h is not part of this model;
      its default position is taken to be the top-left corner. */
  function DefaultPlayer(): (p: Player)
    ensures p == NewPlayer(Blue)
  {
    Player(Blue, Position(0, 0), Waiting, [], None)
  }

  function SetPosition(p: Player, position: Position): (r: Player)
    ensures r.position == position
    ensures r == p.(position := position)
  {
    p.(position := position)
  }

  function IsAt(p: Player, position: Position): (r: bool)
    ensures r <==> p.position == position
  {
    position == p.position
  }

  /** After setting a position, the player is at that position and at no other. */
  lemma SetPositionThenIsAt(p: Player, position: Position, other: Position)
    ensures IsAt(SetPosition(p, position), other) <==> other == position
  {
  }

  /** Moves the player to (row, column); refused outside the maze, and then the player
      stays where it was. */
  function MoveTo(p: Player, row: nat, column: nat): (r: Result<Player>)
    ensures r.Success? <==> row < SIZE && column < SIZE
    ensures r.Failure? ==> r.error == OutOfBounds
    ensures r.Success? ==> r.value == p.(position := Position(row, column))
  {
    match MovePosition(row, column)
    case Success(position) => Success(p.(position := position))
    case Failure(e) => Failure(e)
  }

  function SetState(p: Player, state: State): (r: Player)
    ensures r.state == state && r == p.(state := state)
  {
    p.(state := state)
  }

  /** The turn steps are state changes: each accepted step is `SetState` with the
      phase it enters. */
  lemma TurnStepsSetTheState(p: Player)
    ensures SetWaiting(p) == SetState(p, Waiting)
    ensures IsWaiting(p) ==> SetReadyToMove(p) == Success(SetState(p, ReadyToMove))
    ensures IsReadyToMove(p) ==> SetDone(p) == Success(SetState(p, Done))
  {
  }

  predicate IsWaiting(p: Player) {
    p.state == Waiting
  }

  predicate IsReadyToMove(p: Player) {
    p.state == ReadyToMove
  }

  predicate IsDone(p: Player) {
    p.state == Done
  }

  /** At every moment a player is in exactly one phase of the turn. */
  lemma ExactlyOnePhase(p: Player)
    ensures IsWaiting(p) || IsReadyToMove(p) || IsDone(p)
    ensures IsWaiting(p) ==> !IsReadyToMove(p) && !IsDone(p)
    ensures IsReadyToMove(p) ==> !IsDone(p)
  {
  }

  /** All objectives are found exactly when no card of the deck is face down. */
  function HasFoundAllObjectives(p: Player): (r: bool)
    ensures r <==> FaceDownCount(p.objectives) == 0
  {
    NoneFaceDownIffAllTurnedOver(p.objectives);
    AllTurnedOver(p.objectives)
  }

  /** Makes the deck's current card the player's current objective; refused once every
      objective is turned over. The new objective is the first card still face down. */
  function NextObjective(p: Player): (r: Result<Player>)
    requires Valid(p)
    ensures r.Failure? <==> HasFoundAllObjectives(p)
    ensures r.Failure? ==> r.error == ObjectivesExhausted
    ensures r.Success? ==> Valid(r.value)
    ensures r.Success? ==> r.value.(current := p.current) == p
    ensures r.Success? ==> r.value.current.Some?
    ensures r.Success? ==>
      var i := r.value.current.value;
      && !p.objectives[i].turnedOver
      && forall j :: 0 <= j < i ==> p.objectives[j].turnedOver
  {
    if HasFoundAllObjectives(p) then Failure(ObjectivesExhausted)
    else Success(p.(current := CurrentCard(p.objectives)))
  }

  /** Replaces the deck and immediately selects its current card as the objective. */
  function SetObjectives(p: Player, cards: Deck): (r: Result<Player>)
    requires Valid(p)
    ensures r.Failure? <==> AllTurnedOver(cards)
    ensures r.Failure? ==> r.error == ObjectivesExhausted
    ensures r.Success? ==> Valid(r.value) && r.value.objectives == cards
    ensures r.Success? ==>
      && r.value.color == p.color && r.value.position == p.position && r.value.state == p.state
    ensures r.Success? ==> r.value.current == CurrentCard(cards)
  {
    NextObjective(p.(objectives := cards, current := None))
  }

  /** The object of the current objective card; there is none before an objective
      has been selected (the source dereferences a null pointer there). */
  function GetObjective(p: Player): (r: Result<Object>)
    requires Valid(p)
    ensures r.Failure? <==> p.current.None?
    ensures r.Success? ==> r.value == p.objectives[p.current.value].item
  {
    match p.current
    case None => Failure(NoCurrentObjective)
    case Some(i) => Success(p.objectives[i].item)
  }

  /** Once an objective is selected, it reads as the object of the deck's first card
      still face down. */
  lemma SelectedObjectiveIsRead(p: Player)
    requires Valid(p) && !HasFoundAllObjectives(p)
    ensures NextObjective(p).Success?
    ensures GetObjective(NextObjective(p).value) == Success(p.objectives[CurrentCard(p.objectives).value].item)
  {
  }

  /** Turns the current objective over; refused when none has been selected yet. */
  function TurnCurrentObjectiveOver(p: Player): (r: Result<Player>)
    requires Valid(p)
    ensures r.Failure? <==> p.current.None?
    ensures r.Failure? ==> r.error == NoCurrentObjective
    ensures r.Success? ==> Valid(r.value) && r.value.current == p.current
    ensures r.Success? ==> r.value.objectives == TurnOver(p.objectives, p.current.value)
    ensures r.Success? ==> r.value.(objectives := p.objectives) == p
  {
    match p.current
    case None => Failure(NoCurrentObjective)
    case Some(i) => Success(p.(objectives := TurnOver(p.objectives, i)))
  }

  /** Turns every objective over; afterwards the player has found them all. */
  function TurnAllObjectivesOver(p: Player): (r: Player)
    ensures HasFoundAllObjectives(r)
    ensures |r.objectives| == |p.objectives|
    ensures forall i :: 0 <= i < |p.objectives| ==> r.objectives[i].item == p.objectives[i].item
    ensures r.(objectives := p.objectives) == p
  {
    p.(objectives := TurnOverAll(p.objectives))
  }

  function SetWaiting(p: Player): (r: Player)
    ensures IsWaiting(r)
    ensures r.(state := p.state) == p
  {
    p.(state := Waiting)
  }

  /** Refused unless the player is waiting; then the player is ready to move. */
  function SetReadyToMove(p: Player): (r: Result<Player>)
    ensures r.Success? <==> IsWaiting(p)
    ensures r.Failure? ==> r.error == NotWaiting
    ensures r.Success? ==> IsReadyToMove(r.value) && r.value.(state := p.state) == p
  {
    if !IsWaiting(p) then Failure(NotWaiting) else Success(p.(state := ReadyToMove))
  }

  /** Refused unless the player is ready to move; then the player is done. */
  function SetDone(p: Player): (r: Result<Player>)
    ensures r.Success? <==> IsReadyToMove(p)
    ensures r.Failure? ==> r.error == NotReadyToMove
    ensures r.Success? ==> IsDone(r.value) && r.value.(state := p.state) == p
  {
    if !IsReadyToMove(p) then Failure(NotReadyToMove) else Success(p.(state := Done))
  }

  /** A turn runs waiting, ready to move, done, and back to waiting; the guarded steps
      cannot be skipped or taken twice. */
  lemma TurnCycle(p: Player)
    requires IsWaiting(p)
    ensures SetDone(p).Failure?
    ensures SetReadyToMove(p).Success?
    ensures var q := SetReadyToMove(p).value;
      && SetReadyToMove(q).Failure?
      && SetDone(q).Success?
      && SetReadyToMove(SetDone(q).value).Failure?
      && SetDone(SetDone(q).value).Failure?
      && SetWaiting(SetDone(q).value) == p
  {
  }

  /** The corner a player of each colour starts from and must return to. */
  function HomeCorner(color: Color): Position {
    match color
    case Red => Position(0, 0)
    case Yellow => Position(0, SIZE - 1)
    case Green => Position(SIZE - 1, 0)
    case Blue => Position(SIZE - 1, SIZE - 1)
  }

  function IsReturnedToInitialPos(p: Player): (r: bool)
    ensures r <==> p.position == HomeCorner(p.color)
  {
    match p.color
    case Red => p.position.row == 0 && p.position.column == 0
    case Yellow => p.position.row == 0 && p.position.column == SIZE - 1
    case Green => p.position.row == SIZE - 1 && p.position.column == 0
    case Blue => p.position.row == SIZE - 1 && p.position.column == SIZE - 1
  }

  function IsGoodPosition(position: Position): bool {
    || (position.column == 0 && position.row == 0)
    || (position.column == SIZE - 1 && position.row == 0)
    || (position.column == 0 && position.row == SIZE - 1)
    || (position.column == SIZE - 1 && position.row == SIZE - 1)
  }

  /** The good positions are exactly the four home corners, one per colour. */
  lemma GoodPositionsAreHomeCorners(position: Position)
    ensures IsGoodPosition(position) <==> exists c :: HomeCorner(c) == position
    ensures forall c1, c2 :: HomeCorner(c1) == HomeCorner(c2) ==> c1 == c2
  {
    if IsGoodPosition(position) {
      if position.row == 0 && position.column == 0 {
        assert HomeCorner(Red) == position;
      } else if position.row == 0 {
        assert HomeCorner(Yellow) == position;
      } else if position.column == 0 {
        assert HomeCorner(Green) == position;
      } else {
        assert HomeCorner(Blue) == position;
      }
    }
  }

  /** Player equality compares colours only. */
  function SamePlayer(a: Player, b: Player): (r: bool)
    ensures r <==> a.color == b.color
  {
    a.color == b.color
  }

  /** A player stays equal to itself through every step of a game, as no step
      changes its colour. */
  lemma StepsKeepIdentity(p: Player, position: Position, row: nat, column: nat, cards: Deck)
    requires Valid(p)
    ensures SamePlayer(p, SetPosition(p, position)) && SamePlayer(p, SetWaiting(p))
    ensures MoveTo(p, row, column).Success? ==> SamePlayer(p, MoveTo(p, row, column).value)
    ensures SetReadyToMove(p).Success? ==> SamePlayer(p, SetReadyToMove(p).value)
    ensures SetDone(p).Success? ==> SamePlayer(p, SetDone(p).value)
    ensures NextObjective(p).Success? ==> SamePlayer(p, NextObjective(p).value)
    ensures SetObjectives(p, cards).Success? ==> SamePlayer(p, SetObjectives(p, cards).value)
    ensures TurnCurrentObjectiveOver(p).Success? ==> SamePlayer(p, TurnCurrentObjectiveOver(p).value)
  {
  }

  /** One round of objective progression: select the next objective, then find it. */
  function CollectOne(p: Player): (r: Result<Player>)
    requires Valid(p)
    ensures r.Success? ==> Valid(r.value)
  {
    match NextObjective(p)
    case Failure(e) => Failure(e)
    case Success(q) => TurnCurrentObjectiveOver(q)
  }

  /** Each round turns exactly one more card over. */
  lemma CollectOneTurnsOneCard(p: Player)
    requires Valid(p) && !HasFoundAllObjectives(p)
    ensures CollectOne(p).Success?
    ensures FaceDownCount(CollectOne(p).value.objectives) == FaceDownCount(p.objectives) - 1
  {
    var q := NextObjective(p).value;
    TurnOverCountsDown(p.objectives, q.current.value);
  }

  function CollectRounds(p: Player, rounds: nat): (r: Result<Player>)
    requires Valid(p)
    ensures r.Success? ==> Valid(r.value)
    decreases rounds
  {
    if rounds == 0 then Success(p)
    else match CollectOne(p)
      case Failure(e) => Failure(e)
      case Success(q) => CollectRounds(q, rounds - 1)
  }

  /** Objective progression ends: as many rounds as there are face-down cards find
      every objective, after which selecting another objective is refused. */
  lemma {:induction false} CollectingEveryObjective(p: Player)
    requires Valid(p)
    ensures CollectRounds(p, FaceDownCount(p.objectives)).Success?
    ensures HasFoundAllObjectives(CollectRounds(p, FaceDownCount(p.objectives)).value)
    ensures NextObjective(CollectRounds(p, FaceDownCount(p.objectives)).value) == Failure(ObjectivesExhausted)
    decreases FaceDownCount(p.objectives)
  {
    NoneFaceDownIffAllTurnedOver(p.objectives);
    if FaceDownCount(p.objectives) > 0 {
      CollectOneTurnsOneCard(p);
      CollectingEveryObjective(CollectOne(p).value);
    }
  }
}
