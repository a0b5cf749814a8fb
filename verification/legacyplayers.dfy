/** The older player of model/Player.h: a colour and an age fixed at construction, a
    position, a state, a deck of objectives and a current objective. The current
    objective is the index of a card of the player's deck, or None for the source's
    null pointer. */
module LegacyPlayers {
  import opened Outcomes
  import opened Positions
  import opened Objectives
  import Players

  /** The states of the older player; only Waiting is ever entered. */
  datatype LegacyState = Waiting | MovingPathways | MovingPiece | Pass

  /** `age` is an unsigned in the source; no operation does arithmetic on it. */
  datatype LegacyPlayer = LegacyPlayer(
    color: Players.Color,
    age: nat,
    position: Position,
    state: LegacyState,
    current: Option<nat>,
    objectives: Deck)

  predicate Valid(p: LegacyPlayer) {
    p.current.Some? ==> p.current.value < |p.objectives|
  }

  /** Construction stores colour, age, position and deck; the player waits and has no
      current objective yet. */
  function NewLegacyPlayer(color: Players.Color, age: nat, position: Position, objectives: Deck): (p: LegacyPlayer)
    ensures Valid(p)
    ensures GetColor(p) == color && GetAge(p) == age
    ensures GetPosition(p) == position && GetState(p) == Waiting
    ensures p.objectives == objectives && p.current.None?
  {
    LegacyPlayer(color, age, position, Waiting, None, objectives)
  }

  function GetColor(p: LegacyPlayer): Players.Color {
    p.color
  }

  function GetAge(p: LegacyPlayer): nat {
    p.age
  }

  function GetPosition(p: LegacyPlayer): Position {
    p.position
  }

  function GetState(p: LegacyPlayer): LegacyState {
    p.state
  }

  /** Moves the player to (row, column); refused outside the maze. Colour, age, state
      and objectives never change. */
  function MoveTo(p: LegacyPlayer, row: nat, column: nat): (r: Result<LegacyPlayer>)
    ensures r.Success? <==> InBounds(Position(row, column))
    ensures r.Failure? ==> r.error == OutOfBounds
    ensures r.Success? ==> GetPosition(r.value).row == row && GetPosition(r.value).column == column
    ensures r.Success? ==> r.value.(position := p.position) == p
  {
    match MovePosition(row, column)
    case Success(position) => Success(p.(position := position))
    case Failure(e) => Failure(e)
  }

  function HasFoundAllObjectives(p: LegacyPlayer): (r: bool)
    ensures r <==> FaceDownCount(p.objectives) == 0
  {
    NoneFaceDownIffAllTurnedOver(p.objectives);
    AllTurnedOver(p.objectives)
  }

  /** Sets the current objective to the deck's current card, the first card still face
      down. It does not check the deck: once every card is turned over the objective
      becomes null (None), which is an assumption about the deck. */
  function NextObjective(p: LegacyPlayer): (r: LegacyPlayer)
    ensures Valid(r)
    ensures r.(current := p.current) == p
    ensures r.current.None? <==> HasFoundAllObjectives(p)
    ensures r.current.Some? ==>
      && !p.objectives[r.current.value].turnedOver
      && forall j :: 0 <= j < r.current.value ==> p.objectives[j].turnedOver
  {
    p.(current := CurrentCard(p.objectives))
  }

  /** Turns the current objective over; a null current objective is refused. */
  function TurnCurrentObjectiveOver(p: LegacyPlayer): (r: Result<LegacyPlayer>)
    requires Valid(p)
    ensures r.Failure? <==> p.current.None?
    ensures r.Failure? ==> r.error == NoCurrentObjective
    ensures r.Success? ==> r.value.objectives == TurnOver(p.objectives, p.current.value)
    ensures r.Success? ==> r.value.objectives[p.current.value].turnedOver
    ensures r.Success? ==> Valid(r.value) && r.value.(objectives := p.objectives) == p
  {
    match p.current
    case None => Failure(NoCurrentObjective)
    case Some(i) => Success(p.(objectives := TurnOver(p.objectives, i)))
  }

  /** What the getters read across every operation: colour and age are const members
      and never change; no operation leaves the waiting state; and the position
      changes only through a successful move, to exactly the requested cell. */
  lemma GettersAcrossSteps(p: LegacyPlayer, row: nat, column: nat)
    requires Valid(p)
    ensures MoveTo(p, row, column).Success? ==>
      var q := MoveTo(p, row, column).value;
      && GetColor(q) == GetColor(p) && GetAge(q) == GetAge(p) && GetState(q) == GetState(p)
      && GetPosition(q) == Position(row, column)
    ensures var q := NextObjective(p);
      && GetColor(q) == GetColor(p) && GetAge(q) == GetAge(p) && GetState(q) == GetState(p)
      && GetPosition(q) == GetPosition(p)
    ensures TurnCurrentObjectiveOver(p).Success? ==>
      var q := TurnCurrentObjectiveOver(p).value;
      && GetColor(q) == GetColor(p) && GetAge(q) == GetAge(p) && GetState(q) == GetState(p)
      && GetPosition(q) == GetPosition(p)
  {
  }

  /** The six-object deck of the player tests. */
  function TestDeck(): Deck {
    NewDeck([Bat, Dragon, Emerald, Fairy, Keys, Ghost])
  }

  /** The player of the tests: blue, aged 7, at (0, 0), with the six-object deck. */
  function TestPlayer(): LegacyPlayer {
    NewLegacyPlayer(Players.Blue, 7, Position(0, 0), TestDeck())
  }

  /** Construction keeps colour, age and position, and the player waits. */
  lemma ConstructionScenario()
    ensures var p := TestPlayer();
      && GetColor(p) == Players.Blue && GetAge(p) == 7
      && GetPosition(p) == Position(0, 0) && GetState(p) == Waiting
  {
  }

  /** The test player moves to (4, 3) and is refused (7, 12). */
  lemma MoveScenarios()
    ensures MoveTo(TestPlayer(), 4, 3).Success?
    ensures GetPosition(MoveTo(TestPlayer(), 4, 3).value) == Position(4, 3)
    ensures MoveTo(TestPlayer(), 7, 12) == Failure(OutOfBounds)
  {
  }

  /** The test player has not found its objectives, and has found them all once every
      card of its deck is turned over. */
  lemma AllObjectivesScenario()
    ensures !HasFoundAllObjectives(TestPlayer())
    ensures HasFoundAllObjectives(TestPlayer().(objectives := TurnOverAll(TestPlayer().objectives)))
  {
    assert !TestPlayer().objectives[0].turnedOver;
  }

  /** As written, a freshly constructed player has a null current objective, so the
      test that turns the current objective over right after construction
      dereferences null. */
  lemma FreshPlayerHasNoObjectiveToTurn()
    ensures TurnCurrentObjectiveOver(TestPlayer()) == Failure(NoCurrentObjective)
  {
  }

  /** The evident intent: select the current objective first. With a card face down,
      the player then turns exactly that card over. */
  lemma SelectedObjectiveCanBeTurned(color: Players.Color, age: nat, position: Position, d: Deck)
    requires !AllTurnedOver(d)
    ensures var p := NextObjective(NewLegacyPlayer(color, age, position, d));
      && p.current.Some?
      && TurnCurrentObjectiveOver(p).Success?
      && TurnCurrentObjectiveOver(p).value.objectives[p.current.value].turnedOver
      && FaceDownCount(TurnCurrentObjectiveOver(p).value.objectives) == FaceDownCount(d) - 1
  {
    var p := NextObjective(NewLegacyPlayer(color, age, position, d));
    TurnOverCountsDown(d, p.current.value);
  }
}
