# Labyrinth game rules in Dafny

A model of the rules core of a Labyrinth board game: the 7 by 7 maze of
pathway cards, into which a spare card is pushed from a side to shift a whole
row or column; the path queries over the facing openings of neighbouring
cards; the maze cards themselves; and the two versions of the player — the
turn-phase player (waiting, ready to move, done) with its deck of objectives,
and the older player with a colour and age fixed at construction.

Everything is an immutable datatype and a pure function. An operation that
throws `std::logic_error` in the source returns `Outcomes.Result`: a `Failure`
names the check that refused, and since the source checks before it mutates,
the caller's value is left as it was. One error has no check behind it:
`NoCurrentObjective` stands for the source dereferencing a null current
objective.

Modules, one per component: `Outcomes` (options, errors, results),
`Positions` (the grid size, coordinates, directions), `MazeCards`, `Mazes`,
`Paths`, `Objectives` (a deck of objective cards), `Players` (the turn-phase
player of core/model/Player.h) and `LegacyPlayers` (model/Player.h).

Modelling assumptions, because the implementation files are not part of this
model (Maze.cpp, MazeCardShape.h, MazePosition.h, ObjectivesDeck.h):

- `InsertAt` shifts the whole column (pushed in from the top or the bottom) or
  row (from the left or the right) by one cell, puts the new card at the entry
  cell and pushes out the card at the far end. The side is chosen in the order
  top, bottom, left, otherwise right, as the `isInserting*` predicates and the
  four `insert*Side` helpers suggest.
- A position is inserrable when it is in the maze, on a side, holds a movable
  card, and is not the cell the last card was pushed out of. The doc-comment of
  `insertAt` states only the movable-card condition and "different than the
  position of last inserted card"; being in the maze and on a side are
  assumptions of the model. The maze records the forbidden cell in
  `lastExpelledAt`.
- `AreAdjacent` holds for two grid neighbours whose cards have facing openings.
  A path exists between two cells when a chain of adjacent cells links them;
  `ExistPathBetween` computes it by a search over the adjacency mapping.
- A shape is its four openings. A rotation is a clockwise quarter turn. A T has
  three openings, an L two on neighbouring sides, an I two facing each other.
- A deck's current card is its first card still face down. A position move is
  refused outside the maze.

The phrase "the position of last inserted card" in the doc-comment of
`insertAt` is ambiguous. The same header calls the card pushed out "the last
inserted card" (`getLastMazeCardInserted` returns the last expelled card), so
the model reads the phrase as the cell that card was pushed out of: the far end
of the line just shifted. This is the board game's anti-reversal rule. Right
after an insertion, the opposite end of the same line is refused
(`Mazes.ReversalRefused`), so a move cannot be undone at once. Every other
non-steady side cell, the one just used included, stays open
(`Mazes.OnlyTheOppositeEndIsBarred`).

## Model

| member | source | states |
|---|---|---|
| `MazeCards.NewCard` | model/MazeCard.h:30-38 | a card keeps the given shape and movable flag, and the flag defaults to movable |
| `MazeCards.IsGoingUp` | model/MazeCard.h:90-95 | going up agrees with `isGoing` towards the top |
| `MazeCards.IsGoingRight` | model/MazeCard.h:97-102 | going right agrees with `isGoing` towards the right |
| `MazeCards.IsGoingDown` | model/MazeCard.h:104-109 | going down agrees with `isGoing` towards the bottom |
| `MazeCards.IsGoingLeft` | model/MazeCard.h:111-116 | going left agrees with `isGoing` towards the left |
| `MazeCards.Rotate` | model/MazeCard.h:118-124 | rotation is refused exactly on a steady card; otherwise the card stays movable, each opening turns a quarter clockwise, and its kind (T, L, I) is kept |
| `MazeCards.FourRotationsRestore` | model/MazeCard.h:118-124 | four rotations of a movable card give back the same card |
| `MazeCards.IsMovable` | model/MazeCard.h:30-51 | a card is movable exactly when it is the card the constructor builds from its shape with the default flag |
| `MazeCards.IsT` | model/MazeCard.h:59-64 | a T goes every way but one |
| `MazeCards.IsL` | model/MazeCard.h:66-71 | an L goes exactly two ways, on neighbouring sides |
| `MazeCards.IsI` | model/MazeCard.h:73-78 | an I goes exactly two ways, facing each other |
| `MazeCards.GoingDirectionsAreTheExits` | model/MazeCard.h:80-88 | a card goes exactly towards the exits of its shape, and it has as many exits as openings |
| `MazeCards.RotationKeepsKind` | model/MazeCard.h:59-78 | turning a shape keeps it a T, an L or an I |
| `MazeCards.KindsAreExclusive` | model/MazeCard.h:59-78 | a valid shape is of exactly one kind |
| `MazeCards.QueriesDependOnShapeOnly` | model/MazeCard.h:59-88 | two cards of the same shape answer `isT`, `isL`, `isI` and `isGoing` alike, whatever their movable flags |
| `Mazes.SetCardAt` | core/model/Maze.h:63-71 | after setting a card at a cell, that cell reads back the card and every other cell is unchanged |
| `Mazes.ReadThenWriteKeepsMaze` | core/model/Maze.h:69-81 | writing back the card read at a cell leaves the maze as it was; reading after a write gives the written card there and the old card elsewhere |
| `Mazes.GetLastMazeCardInserted` | core/model/Maze.h:83 | the card outside the maze is movable in a well-formed maze, so pushing it in keeps the maze well-formed (`Mazes.InsertionPreservesLayout`) |
| `Mazes.IsInserrable` | core/model/Maze.h:125-129 | a cell is inserrable exactly when it is a side cell of the maze holding a movable card, other than the cell the last card was pushed out of; such a cell has a step leaving the maze, and in a well-formed maze it is never a steady spot, so never a corner |
| `Mazes.IsOutOfBounds` | core/model/Maze.h:117-123 | out of bounds means not one of the 49 cells of the maze |
| `Mazes.IsInsertingUp` | core/model/Maze.h:139-146 | for a cell of the maze: inserting from the top exactly when no cell lies above it |
| `Mazes.IsInsertingDown` | core/model/Maze.h:148-156 | inserting from the bottom exactly when no cell lies below it |
| `Mazes.IsInsertingLeft` | core/model/Maze.h:158-166 | inserting from the left exactly when no cell lies on its left |
| `Mazes.SideCellsTouchTheBorder` | core/model/Maze.h:196-204 | a cell is on a side exactly when some step from it leaves the maze |
| `Mazes.InsertAt` | core/model/Maze.h:105-115 | refused exactly when the position is not inserrable; otherwise the card sits at the position, the rest of the line holds the card of its entry-side neighbour, cells off the line are unchanged, the card at the far end is returned and becomes the last expelled card, and its cell is recorded as barred |
| `Mazes.InserrableSpots` | core/model/Maze.h:125-129 | under the steady layout, the insertion points are the side cells off the steady spots (never a corner) other than the cell the last card was pushed out of |
| `Mazes.InnerCellsAreRefused` | tests/GameTest.cpp:16-21 | an inner cell such as (4, 5) is refused as an insertion point |
| `Mazes.ReversalRefused` | core/model/Maze.h:105-110 | right after an insertion, inserting at the opposite end of the same line is refused |
| `Mazes.OnlyTheOppositeEndIsBarred` | core/model/Maze.h:105-110 | after inserting a movable card into a well-formed maze, the insertion points are all non-steady side cells except the opposite end of the line just shifted |
| `Mazes.InsertionKeepsSteadyCards` | core/model/Maze.h:44-50 | the 16 steady cards stay at the same spot across any insertion |
| `Mazes.InsertionPreservesLayout` | core/model/Maze.h:44-50 | inserting a movable card keeps steady cards exactly at even row and column, and the expelled card is movable |
| `Mazes.ShiftBack` | core/model/Maze.h:168-194 | for every side cell, corners included, shifting a line in from one end, then back in from the other end with the card pushed out, restores the grid |
| `Paths.AreAdjacent` | core/model/Maze.h:94-103 | adjacent cells are in the maze and one step apart |
| `Paths.AdjacentExactlyWhenFacing` | core/model/Maze.h:94-103 | a cell and the one below it are adjacent exactly when the upper card goes down and the lower goes up; a cell and the one to its right exactly when the left card goes right and the right card goes left; cells not one step apart are never adjacent |
| `Paths.AdjacencyIsSymmetric` | core/model/Maze.h:94-103 | adjacency holds both ways |
| `Paths.Adjacencies` | core/model/Maze.h:58-61 | the adjacency mapping, rebuilt from the whole grid, has every cell as a key and lists exactly its adjacent cells |
| `Paths.AdjacenciesAreSymmetric` | core/model/Maze.h:28-31 | the mapping lists `q` for `p` only if it lists `p` for `q`, and only cells one step away |
| `Paths.AdjacentPositionsAreLinked` | core/model/Maze.h:94-103 | adjacent cells are linked by a path |
| `Paths.ReachableIsReflexive` | core/model/Maze.h:85-92 | every cell of the maze is linked to itself |
| `Paths.ReachableIsSymmetric` | core/model/Maze.h:85-92 | a path between two cells links them both ways |
| `Paths.ReachableIsTransitive` | core/model/Maze.h:85-92 | paths chain |
| `Paths.ExistPathBetween` | core/model/Maze.h:85-92 | the search answers true exactly when a chain of adjacent cells links the two cells |
| `Players.NewPlayer` | core/model/Player.h:84-99 | a new player has the given colour and position (top-left by default), waits and has no objective |
| `Players.DefaultPlayer` | core/model/Player.h:101-110 | the default player is a new blue player |
| `Players.SetPositionThenIsAt` | core/model/Player.h:133-141 | after setting a position the player is at it and at no other |
| `Positions.MovePosition` | core/model/Player.h:240-246 | moving a position succeeds exactly inside the maze, to exactly the given row and column, and fails out of bounds otherwise |
| `Players.MoveTo` | core/model/Player.h:240-246 | moving succeeds exactly inside the maze, and then only the position changes |
| `Players.TurnStepsSetTheState` | core/model/Player.h:164-169 | every turn step is a change of state: setting waiting, and the accepted steps to ready to move and to done, are `setState` with the phase entered |
| `Players.SelectedObjectiveIsRead` | core/model/Player.h:157-162 | once an objective is selected, it reads as the object of the first card of the deck still face down |
| `Players.NextObjective` | core/model/Player.h:253-263 | refused exactly when every objective is turned over; otherwise the objective becomes the first card still face down and nothing else changes |
| `Players.SetObjectives` | core/model/Player.h:171-180 | the deck is replaced and its current card immediately becomes the objective; refused on a deck with every card turned over |
| `Players.TurnCurrentObjectiveOver` | core/model/Player.h:248-251 | turns exactly the current objective card over; refused when there is none |
| `Players.TurnAllObjectivesOver` | core/model/Player.h:292-298 | afterwards the player has found all objectives; the deck keeps its length and the object of every card, and nothing else changes |
| `Players.HasFoundAllObjectives` | core/model/Player.h:182-189 | all objectives are found exactly when no card of the deck is face down |
| `Players.ExactlyOnePhase` | core/model/Player.h:198-219 | a player is always in exactly one of waiting, ready to move and done |
| `Players.SetWaiting` | core/model/Player.h:265-267 | from any state the player waits, and nothing else changes |
| `Players.SetReadyToMove` | core/model/Player.h:269-280 | succeeds exactly from waiting, and then the player is ready to move |
| `Players.SetDone` | core/model/Player.h:282-290 | succeeds exactly from ready to move, and then the player is done |
| `Players.TurnCycle` | core/model/Player.h:29-51 | a turn runs waiting, ready to move, done, back to waiting, and the guarded steps cannot be skipped or repeated |
| `Players.IsReturnedToInitialPos` | core/model/Player.h:221-238 | holds exactly at the colour's home corner: red (0,0), yellow (0,6), green (6,0), blue (6,6) |
| `Players.GoodPositionsAreHomeCorners` | core/model/Player.h:191-196 | the good positions are exactly the four home corners, a different one per colour |
| `Players.StepsKeepIdentity` | core/model/Player.h:322-324 | player equality compares colours only, and no step changes the colour, so a player stays equal to itself through every step whatever its position, state or deck |
| `Players.CollectOneTurnsOneCard` | core/model/Player.h:248-263 | while objectives remain, selecting and finding the next one turns exactly one more card over |
| `Players.CollectingEveryObjective` | core/model/Player.h:182-189 | as many rounds as there are face-down cards find every objective, after which selecting another is refused |
| `LegacyPlayers.NewLegacyPlayer` | model/Player.h:74-92 | construction stores colour, age, position and deck; the player waits with no current objective |
| `LegacyPlayers.MoveTo` | model/Player.h:136-142 | moving succeeds exactly inside the maze, to exactly the given row and column, and nothing else changes |
| `LegacyPlayers.NextObjective` | model/Player.h:149-152 | the current objective becomes the deck's first face-down card, or none once all are turned over |
| `LegacyPlayers.HasFoundAllObjectives` | model/Player.h:154-161 | all objectives are found exactly when no card is face down |
| `LegacyPlayers.TurnCurrentObjectiveOver` | model/Player.h:144-147 | turns exactly the current objective card over; refused when there is none |
| `LegacyPlayers.GettersAcrossSteps` | model/Player.h:95-120 | across every operation the colour, age and state read the same, and the position changes only through a successful move, to exactly the requested cell |
| `LegacyPlayers.ConstructionScenario` | tests/PlayerTest.cpp:13-29 | the test player is blue, aged 7, at (0,0) and waiting |
| `LegacyPlayers.MoveScenarios` | tests/PlayerTest.cpp:31-63 | the test player moves to (4,3) and is refused (7,12) |
| `LegacyPlayers.AllObjectivesScenario` | tests/PlayerTest.cpp:80-93 | the test player has found all objectives once every card of its deck is turned over |
| `LegacyPlayers.FreshPlayerHasNoObjectiveToTurn` | tests/PlayerTest.cpp:65-78 | right after construction there is no current objective to turn over |
| `LegacyPlayers.SelectedObjectiveCanBeTurned` | tests/PlayerTest.cpp:65-78 | once the objective is selected, turning it over turns exactly that card over |

## Left out

- Random maze set-up (the constructor, `initialize`, `initializeCards`, `initializeAdjacency`): a maze is given as a grid; `Mazes.WellFormed` states the layout the set-up promises (steady cards exactly at even row and even column, a movable spare card).
- The 12 objective marks on maze cards: MazeCard.h has no field for them.
- `Maze::operator=` and `Player::operator=`: value semantics make assignment a plain copy; the current objective is an index into the player's own deck, so the aliasing pointer copy is not modelled.
- `operator++` on `Color`: it runs past the last colour and only serves game set-up.
- The `Game` class, command dispatch, text and GUI rendering: not part of the rules core. So is carrying a player standing on a shifted card along with the shift; neither core/model/Maze.h nor core/model/Player.h does it.
- `MazeCard`'s default constructor: it leaves the movable flag uninitialised, which has no value to model.
- `Players.SetObjectives`: when every card of the new deck is turned over, the source has already replaced the deck when `nextObjective` throws; the model returns only the error, not that half-updated player.
- `Players.DefaultPlayer`: MazePosition.h is not part of this model; its default position is taken to be (0,0).
- `LegacyPlayers.NextObjective`: the older deck's `getCurrentCard` is not part of this model; once every card is turned over it is taken to give a null card.
- `LegacyPlayers.AllObjectivesScenario`: the test turns over the cards of the copy returned by `getObjectives()`. Whether that reaches the player's own deck depends on ObjectivesDeck, which is not part of this model; the lemma turns the player's own deck over.
- `Paths.ExistPathBetween`: for a cell outside the maze it answers false; the source does not say.
- `Players.TurnCurrentObjectiveOver`: with no current objective the source dereferences a null pointer (undefined behaviour); the model returns `Failure(NoCurrentObjective)` instead.
- `Players.GetObjective`: with no current objective the source dereferences a null pointer (undefined behaviour); the model returns `Failure(NoCurrentObjective)` instead.
- `LegacyPlayers.TurnCurrentObjectiveOver`: with no current objective the source dereferences a null pointer (undefined behaviour); the model returns `Failure(NoCurrentObjective)` instead.
- Age is a 32-bit unsigned in the source; no operation does arithmetic on it, so it is a `nat`.
- The turn-phase player's `getObjectives`, `getColor`, `getState` and `getPosition` getters, and the older player's `getObjectives`, are datatype fields. The older player's other getters are functions (`LegacyPlayers.GetColor` and the rest); what they read is stated by `LegacyPlayers.NewLegacyPlayer` and `LegacyPlayers.GettersAcrossSteps`.
- `Paths.Adjacencies`: the source caches the adjacency mapping in `adjacencies_` and refreshes it only in `updateAdjacency`; `setCardAt` does not refresh it. The model computes the mapping from the current grid on every query, so it is always current, as if `updateAdjacency` ran after every change, `insertAt` included. A stale cache is not modelled.

## Findings

| source | as written | input that shows it | evidently intended | confidence | as-written member | corrected member |
|---|---|---|---|---|---|---|
| tests/PlayerTest.cpp:65-78 | the test turns the current objective over right after construction, but the constructor sets it to null (model/Player.h:84-92), so the test dereferences null | the test's own player: blue, aged 7, at (0,0), deck Bat, Dragon, Emerald, Fairy, Keys, Ghost | select the current objective with `nextObjective` before turning it over | medium; not executed | `LegacyPlayers.FreshPlayerHasNoObjectiveToTurn` | `LegacyPlayers.SelectedObjectiveCanBeTurned` |
