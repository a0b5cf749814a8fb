/** Path connectivity of the maze. Maze.cpp is not part of this model; the definitions
    here are modelling assumptions: two cells are adjacent when they are grid
    neighbours whose cards have facing openings (MazeCard::isGoing*), and a path exists
    between two cells when a chain of adjacent cells links them. */
module Paths {
  import opened Outcomes
  import opened Positions
  import opened MazeCards
  import opened Mazes

  /** The card at `a` opens towards `d`, `b` is the neighbour there, and its card
      opens back towards `a`. */
  predicate Linked(m: Maze, a: Position, b: Position, d: Direction)
    requires InBounds(a)
  {
    && Neighbour(a, d) == Some(b)
    && IsGoing(GetCardAt(m, a), d)
    && IsGoing(GetCardAt(m, b), OppositeDirection(d))
  }

  /** A single hop of a path: adjacent cells are grid neighbours inside the maze. */
  function AreAdjacent(m: Maze, a: Position, b: Position): (r: bool)
    ensures r ==> InBounds(a) && InBounds(b) && Distance(a, b) == 1
  {
    && InBounds(a)
    && (Linked(m, a, b, Up) || Linked(m, a, b, Right) || Linked(m, a, b, Down) || Linked(m, a, b, Left))
  }

  /** Adjacency through the cards' own direction queries: a cell and the one below it
      are adjacent exactly when the upper card goes down and the lower card goes up; a
      cell and the one to its right exactly when the left card goes right and the right
      card goes left; cells that are not one step apart are never adjacent. */
  lemma AdjacentExactlyWhenFacing(m: Maze, a: Position, b: Position)
    requires InBounds(a) && InBounds(b)
    ensures b == Position(a.row + 1, a.column) ==>
      (AreAdjacent(m, a, b) <==> IsGoingDown(GetCardAt(m, a)) && IsGoingUp(GetCardAt(m, b)))
    ensures b == Position(a.row, a.column + 1) ==>
      (AreAdjacent(m, a, b) <==> IsGoingRight(GetCardAt(m, a)) && IsGoingLeft(GetCardAt(m, b)))
    ensures Distance(a, b) != 1 ==> !AreAdjacent(m, a, b)
  {
    if b == Position(a.row + 1, a.column) {
      assert Neighbour(a, Down) == Some(b);
      assert !Linked(m, a, b, Up) && !Linked(m, a, b, Right) && !Linked(m, a, b, Left);
    } else if b == Position(a.row, a.column + 1) {
      assert Neighbour(a, Right) == Some(b);
      assert !Linked(m, a, b, Up) && !Linked(m, a, b, Down) && !Linked(m, a, b, Left);
    }
  }

  lemma LinkedBack(m: Maze, a: Position, b: Position, d: Direction)
    requires InBounds(a) && Linked(m, a, b, d)
    ensures Linked(m, b, a, OppositeDirection(d))
  {
    NeighbourInverse(a, d);
    assert OppositeDirection(OppositeDirection(d)) == d;
  }

  /** Adjacency goes both ways. */
  lemma AdjacencyIsSymmetric(m: Maze, a: Position, b: Position)
    ensures AreAdjacent(m, a, b) <==> AreAdjacent(m, b, a)
  {
    if AreAdjacent(m, a, b) {
      if Linked(m, a, b, Up) { LinkedBack(m, a, b, Up); }
      else if Linked(m, a, b, Right) { LinkedBack(m, a, b, Right); }
      else if Linked(m, a, b, Down) { LinkedBack(m, a, b, Down); }
      else { LinkedBack(m, a, b, Left); }
    }
    if AreAdjacent(m, b, a) {
      if Linked(m, b, a, Up) { LinkedBack(m, b, a, Up); }
      else if Linked(m, b, a, Right) { LinkedBack(m, b, a, Right); }
      else if Linked(m, b, a, Down) { LinkedBack(m, b, a, Down); }
      else { LinkedBack(m, b, a, Left); }
    }
  }

  /** The adjacency mapping of the maze, rebuilt from the grid as a whole: every cell
      maps to the cells adjacent to it. */
  function Adjacencies(m: Maze): (adj: map<Position, set<Position>>)
    ensures adj.Keys == AllPositions()
    ensures forall p, q :: p in adj ==> (q in adj[p] <==> AreAdjacent(m, p, q))
  {
    map p | p in AllPositions() :: set q | q in AllPositions() && AreAdjacent(m, p, q)
  }

  /** The mapping is symmetric, and lists only in-bounds cells one step away. */
  lemma AdjacenciesAreSymmetric(m: Maze, p: Position, q: Position)
    requires p in Adjacencies(m)
    ensures q in Adjacencies(m)[p] ==> q in Adjacencies(m) && p in Adjacencies(m)[q]
    ensures q in Adjacencies(m)[p] ==> Distance(p, q) == 1
  {
    AdjacencyIsSymmetric(m, p, q);
  }

  /** A non-empty chain of in-bounds cells, each adjacent to the next. */
  predicate IsPath(m: Maze, path: seq<Position>) {
    && |path| > 0
    && InBounds(path[0])
    && forall i :: 0 <= i < |path| - 1 ==> AreAdjacent(m, path[i], path[i + 1])
  }

  ghost predicate Reachable(m: Maze, a: Position, b: Position) {
    exists path :: IsPath(m, path) && path[0] == a && path[|path| - 1] == b
  }

  /** Every cell of the maze is linked to itself. */
  lemma ReachableIsReflexive(m: Maze, a: Position)
    requires InBounds(a)
    ensures Reachable(m, a, a)
  {
    assert IsPath(m, [a]);
  }

  /** Adjacent cells are linked by a path. */
  lemma AdjacentPositionsAreLinked(m: Maze, a: Position, b: Position)
    requires AreAdjacent(m, a, b)
    ensures Reachable(m, a, b)
  {
    assert IsPath(m, [a, b]);
  }

  /** A path extends by one adjacent cell. */
  lemma ReachableExtends(m: Maze, a: Position, b: Position, c: Position)
    requires Reachable(m, a, b) && AreAdjacent(m, b, c)
    ensures Reachable(m, a, c)
  {
    var path :| IsPath(m, path) && path[0] == a && path[|path| - 1] == b;
    var longer := path + [c];
    assert forall i :: 0 <= i < |longer| - 1 ==> AreAdjacent(m, longer[i], longer[i + 1]) by {
      forall i | 0 <= i < |longer| - 1
        ensures AreAdjacent(m, longer[i], longer[i + 1])
      {
        if i < |path| - 1 {
          assert longer[i] == path[i] && longer[i + 1] == path[i + 1];
        }
      }
    }
    assert IsPath(m, longer);
  }

  function Reverse(s: seq<Position>): (r: seq<Position>)
    ensures |r| == |s|
    ensures forall i :: 0 <= i < |s| ==> r[i] == s[|s| - 1 - i]
  {
    seq(|s|, i requires 0 <= i < |s| => s[|s| - 1 - i])
  }

  /** A path read backwards is a path. */
  lemma ReachableIsSymmetric(m: Maze, a: Position, b: Position)
    requires Reachable(m, a, b)
    ensures Reachable(m, b, a)
  {
    var path :| IsPath(m, path) && path[0] == a && path[|path| - 1] == b;
    var back := Reverse(path);
    var n := |path|;
    forall i | 0 <= i < n - 1
      ensures AreAdjacent(m, back[i], back[i + 1])
    {
      assert AreAdjacent(m, path[n - 2 - i], path[n - 1 - i]);
      AdjacencyIsSymmetric(m, path[n - 2 - i], path[n - 1 - i]);
    }
    if n > 1 {
      assert AreAdjacent(m, back[0], back[1]);
    }
    assert IsPath(m, back);
  }

  /** Paths chain: what is linked to a cell linked to `a` is linked to `a`. */
  lemma {:induction false} ReachableIsTransitive(m: Maze, a: Position, b: Position, c: Position)
    requires Reachable(m, a, b) && Reachable(m, b, c)
    ensures Reachable(m, a, c)
  {
    var path :| IsPath(m, path) && path[0] == b && path[|path| - 1] == c;
    PathFromReachable(m, a, path);
  }

  lemma {:induction false} PathFromReachable(m: Maze, a: Position, path: seq<Position>)
    requires IsPath(m, path) && Reachable(m, a, path[0])
    ensures Reachable(m, a, path[|path| - 1])
    decreases |path|
  {
    if |path| > 1 {
      var prefix := path[..|path| - 1];
      assert IsPath(m, prefix) by {
        forall i | 0 <= i < |prefix| - 1
          ensures AreAdjacent(m, prefix[i], prefix[i + 1])
        {
          assert prefix[i] == path[i] && prefix[i + 1] == path[i + 1];
        }
      }
      PathFromReachable(m, a, prefix);
      assert AreAdjacent(m, path[|path| - 2], path[|path| - 1]);
      ReachableExtends(m, a, path[|path| - 2], path[|path| - 1]);
    }
  }

  /** A set of cells that no adjacency leads out of. */
  ghost predicate Closed(m: Maze, visited: set<Position>) {
    forall q, n :: q in visited && AreAdjacent(m, q, n) ==> n in visited
  }

  lemma {:induction false} ClosedSetContainsPath(m: Maze, visited: set<Position>, path: seq<Position>)
    requires IsPath(m, path) && path[0] in visited && Closed(m, visited)
    ensures path[|path| - 1] in visited
    decreases |path|
  {
    if |path| > 1 {
      var prefix := path[..|path| - 1];
      assert IsPath(m, prefix) by {
        forall i | 0 <= i < |prefix| - 1
          ensures AreAdjacent(m, prefix[i], prefix[i + 1])
        {
          assert prefix[i] == path[i] && prefix[i + 1] == path[i + 1];
        }
      }
      ClosedSetContainsPath(m, visited, prefix);
      assert AreAdjacent(m, path[|path| - 2], path[|path| - 1]);
    }
  }

  lemma ClosedSetContainsReachable(m: Maze, visited: set<Position>, a: Position, b: Position)
    requires a in visited && Closed(m, visited)
    ensures Reachable(m, a, b) ==> b in visited
  {
    if Reachable(m, a, b) {
      var path :| IsPath(m, path) && path[0] == a && path[|path| - 1] == b;
      ClosedSetContainsPath(m, visited, path);
    }
  }

  /** What the search keeps: visited cells are in the maze and linked to `a`, and only
      cells still on the frontier may have unvisited adjacent cells. */
  ghost predicate SearchInvariant(m: Maze, a: Position, visited: set<Position>, frontier: set<Position>) {
    && visited <= AllPositions()
    && a in visited && frontier <= visited
    && (forall q :: q in visited ==> Reachable(m, a, q))
    && (forall q, n :: q in visited && q !in frontier && AreAdjacent(m, q, n) ==> n in visited)
  }

  /** Expanding one frontier cell keeps the invariant, and either visits a new cell or
      shrinks the frontier. */
  lemma SearchStep(m: Maze, a: Position, visited: set<Position>, frontier: set<Position>, x: Position)
    requires SearchInvariant(m, a, visited, frontier) && x in frontier
    ensures var found := Adjacencies(m)[x] - visited;
      && SearchInvariant(m, a, visited + found, frontier - {x} + found)
      && (found == {} ==> |frontier - {x} + found| < |frontier|)
      && (found != {} ==> AllPositions() - (visited + found) < AllPositions() - visited)
  {
    var found := Adjacencies(m)[x] - visited;
    forall n | n in found
      ensures Reachable(m, a, n)
    {
      ReachableExtends(m, a, x, n);
    }
    if found != {} {
      var n :| n in found;
      assert n in AllPositions() - visited;
      assert n !in AllPositions() - (visited + found);
    }
  }

  /** Tells whether the cells `a` and `b` are linked by a path: a search over the
      adjacency mapping, from `a` outwards. */
  method ExistPathBetween(m: Maze, a: Position, b: Position) returns (r: bool)
    ensures r <==> Reachable(m, a, b)
  {
    if !InBounds(a) {
      return false;
    }
    var adj := Adjacencies(m);
    var visited := {a};
    var frontier := {a};
    ReachableIsReflexive(m, a);
    while frontier != {}
      invariant SearchInvariant(m, a, visited, frontier)
      decreases AllPositions() - visited, |frontier|
    {
      var x :| x in frontier;
      var found := adj[x] - visited;
      SearchStep(m, a, visited, frontier, x);
      visited, frontier := visited + found, frontier - {x} + found;
    }
    assert Closed(m, visited);
    ClosedSetContainsReachable(m, visited, a, b);
    r := b in visited;
  }
}
