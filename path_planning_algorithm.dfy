/**
 * The search state shared by the path planning algorithms: heuristic and
 * g-value caches, a mutable-priority queue, and the reconstruction of a
 * route from the g-values once a concrete algorithm has run its search.
 * The concrete algorithms supply two hooks: how a cell's priority is
 * computed, and the search itself.
 */
module PathPlanning {
  import opened Wrappers
  import opened Grid
  import opened Costs
  import opened Reconstruction

  /** A copy of the three mutable parts of a search state. */
  datatype SearchState<K> = SearchState(heuristicValue: map<Cell, int>, gValue: map<Cell, int>, priorityQueue: map<Cell, K>)

  /** What a concrete search returns: its answer and the state it leaves behind. */
  datatype SearchAnswer<K> = SearchAnswer(answer: int, state: SearchState<K>)

  /** A concrete algorithm's priority of a cell, given the g-value and heuristic caches. */
  type PriorityHook<K> = (Cell, map<Cell, int>, map<Cell, int>) -> K

  /** A concrete algorithm's search, run on the field, start, goal and the current state. */
  type SearchHook<!K> = (Field, Cell, Cell, SearchState<K>) -> SearchAnswer<K>

  /** The empty state a fresh algorithm instance starts from. */
  function EmptyState<K>(): (s: SearchState<K>)
    ensures |s.heuristicValue| == 0 && |s.gValue| == 0 && |s.priorityQueue| == 0
    ensures forall c :: GValueOf(s.gValue, c) == INFINITY
  {
    SearchState(map[], map[], map[])
  }

  /** What the entry point returns. */
  datatype Answer =
    | NoRoute                                       // the search answered INFINITY
    | Route(cost: int, coords: seq<(int, int)>)     // the search's answer and the route's coordinates
    | ReconstructionFailed(at: (int, int))          // the walk found no predecessor for this cell

  class PathPlanningAlgorithm<K> {
    const field: Field
    const start: Cell
    const goal: Cell
    const calculatePriorityValue: PriorityHook<K>

    var heuristicValue: map<Cell, int>
    var gValue: map<Cell, int>
    var priorityQueue: map<Cell, K>

    /** Every cached heuristic value is the field's heuristic of that cell against the goal. */
    ghost predicate Valid()
      reads this`heuristicValue
    {
      forall c :: c in heuristicValue ==> heuristicValue[c] == field.heuristic(c, goal)
    }

    /** The current contents of the three maps. */
    function State(): SearchState<K>
      reads this`heuristicValue, this`gValue, this`priorityQueue
    {
      SearchState(heuristicValue, gValue, priorityQueue)
    }

    constructor (startCoord: (int, int), goalCoord: (int, int), field: Field, calculatePriorityValue: PriorityHook<K>)
      ensures this.field == field && this.calculatePriorityValue == calculatePriorityValue
      ensures start == CellAt(startCoord) && goal == CellAt(goalCoord)
      ensures State() == EmptyState()
      ensures Valid()
    {
      this.field := field;
      this.calculatePriorityValue := calculatePriorityValue;
      start := CellAt(startCoord);
      goal := CellAt(goalCoord);
      heuristicValue := map[];
      gValue := map[];
      priorityQueue := map[];
    }

    /**
     * The heuristic value of a cell: the cached one if there is one,
     * otherwise the field's heuristic against the goal, now cached.
     */
    method GetHeuristicValue(cell: Cell) returns (h: int)
      modifies this`heuristicValue
      ensures cell in old(heuristicValue) ==> h == old(heuristicValue)[cell] && heuristicValue == old(heuristicValue)
      ensures cell !in old(heuristicValue) ==> h == field.heuristic(cell, goal) && heuristicValue == old(heuristicValue)[cell := h]
      ensures old(Valid()) ==> Valid() && h == field.heuristic(cell, goal)
    {
      var stored := SetDefault(heuristicValue, cell, field.heuristic(cell, goal));
      heuristicValue := stored.0;
      h := stored.1;
    }

    /**
     * The g-value of a cell: its entry if it has one, otherwise INFINITY,
     * which is then stored for it.
     */
    method GetGValue(cell: Cell) returns (v: int)
      modifies this`gValue
      ensures v == GValueOf(old(gValue), cell)
      ensures cell in old(gValue) ==> gValue == old(gValue)
      ensures cell !in old(gValue) ==> v == INFINITY && gValue == old(gValue)[cell := INFINITY]
    {
      var stored := SetDefault(gValue, cell, INFINITY);
      gValue := stored.0;
      v := stored.1;
    }

    /** Inserts the cell into the queue, or re-keys it, with the priority the algorithm computes for it. */
    method SetPriorityValue(cell: Cell)
      modifies this`priorityQueue
      ensures priorityQueue.Keys == old(priorityQueue).Keys + {cell}
      ensures priorityQueue[cell] == calculatePriorityValue(cell, gValue, heuristicValue)
      ensures forall c :: c in old(priorityQueue) && c != cell ==> priorityQueue[c] == old(priorityQueue)[c]
    {
      priorityQueue := priorityQueue[cell := calculatePriorityValue(cell, gValue, heuristicValue)];
    }

    /** Runs the concrete algorithm's search on this instance. */
    method ComputeShortestPath(search: SearchHook<K>) returns (answer: int)
      modifies this`heuristicValue, this`gValue, this`priorityQueue
      ensures var o := search(field, start, goal, old(State()));
        answer == o.answer && State() == o.state
    {
      var o := search(field, start, goal, State());
      heuristicValue, gValue, priorityQueue := o.state.heuristicValue, o.state.gValue, o.state.priorityQueue;
      answer := o.answer;
    }

    /**
     * The inner loop of the reconstruction: scans the neighbours of a cell
     * in the field's order, keeping the first one with the smallest
     * g-value below INFINITY.  Every neighbour scanned that had no g-value
     * now maps to INFINITY.
     */
    method ChoosePredecessor(cellOnThePath: Cell) returns (previousCell: Option<Cell>)
      modifies this`gValue
      ensures var ns := field.neighbours(cellOnThePath);
        previousCell == match MinIndex(old(gValue), ns)
                        case None => None
                        case Some(k) => Some(ns[k])
      ensures gValue == WithDefaults(old(gValue), field.neighbours(cellOnThePath))
    {
      ghost var g0 := gValue;
      previousCell := None;
      var minGValue := INFINITY;
      var neighbours := field.neighbours(cellOnThePath);
      for i := 0 to |neighbours|
        invariant previousCell == (match MinIndex(g0, neighbours[..i])
                                   case None => None
                                   case Some(k) => Some(neighbours[k]))
        invariant minGValue == MinValue(g0, neighbours[..i])
        invariant gValue == WithDefaults(g0, neighbours[..i])
      {
        assert neighbours[..i + 1][..i] == neighbours[..i];
        WithDefaultsValues(g0, neighbours[..i]);
        var g := GetGValue(neighbours[i]);
        if g < minGValue {
          minGValue := GetGValue(neighbours[i]);
          previousCell := Some(neighbours[i]);
        }
      }
      assert neighbours[..|neighbours|] == neighbours;
    }

    /**
     * Recovers the route from start to goal by walking backwards from the
     * goal, each time to the neighbour with the smallest g-value, and
     * reversing the cells visited.  The only change to the state is that
     * every neighbour scanned that had no g-value now maps to INFINITY.
     */
    method FindShortestPath() returns (r: Route)
      requires WalkEnds(gValue, field.neighbours, start, goal)
      modifies this`gValue
      ensures r == Reconstruct(old(gValue), field.neighbours, start, goal)
      ensures gValue == ScanDefaults(old(gValue), field.neighbours,
        Expanded(BackwardWalk(old(gValue), field.neighbours, start, goal)))
    {
      ghost var g0 := gValue;
      ghost var nbrs := field.neighbours;
      ghost var n: nat :| WalkFrom(g0, nbrs, start, goal, n).outcome != OutOfSteps;
      ghost var whole := WalkFrom(g0, nbrs, start, goal, n);
      BackwardWalkIs(g0, nbrs, start, goal, n);
      WalkLast(g0, nbrs, start, goal, n);

      var cellOnThePath := goal;
      var path := [cellOnThePath];
      while cellOnThePath != start
        invariant 1 <= |path| <= |whole.cells| && path == whole.cells[..|path|]
        invariant cellOnThePath == path[|path| - 1]
        invariant gValue == ScanDefaults(g0, nbrs, path[..|path| - 1])
        decreases |whole.cells| - |path|
      {
        WalkTurn(g0, nbrs, start, goal, n, path);
        ScanTurn(g0, nbrs, path, gValue);
        var previousCell := ChoosePredecessor(cellOnThePath);
        match previousCell
        case None =>
          r := Stuck(cellOnThePath);
          return;
        case Some(p) =>
          path := path + [p];
          cellOnThePath := p;
      }
      if |path| < |whole.cells| {
        WalkStep(g0, nbrs, start, goal, n, |path| - 1);
      }
      assert path == whole.cells;
      r := Found(Reversed(path));
    }
  }

  /**
   * The entry point: builds an algorithm instance, runs its search, and
   * maps an INFINITY answer to no route; otherwise it returns the answer
   * together with the coordinates of the reconstructed route.
   */
  method Call<K>(startCoord: (int, int), goalCoord: (int, int), field: Field,
                 calculatePriorityValue: PriorityHook<K>, computeShortestPath: SearchHook<K>) returns (r: Answer)
    requires var o := computeShortestPath(field, CellAt(startCoord), CellAt(goalCoord), EmptyState());
      o.answer != INFINITY ==> WalkEnds(o.state.gValue, field.neighbours, CellAt(startCoord), CellAt(goalCoord))
    ensures var o := computeShortestPath(field, CellAt(startCoord), CellAt(goalCoord), EmptyState());
      r.NoRoute? <==> o.answer == INFINITY
    ensures var o := computeShortestPath(field, CellAt(startCoord), CellAt(goalCoord), EmptyState());
      o.answer != INFINITY ==>
        match Reconstruct(o.state.gValue, field.neighbours, CellAt(startCoord), CellAt(goalCoord))
        case Found(path) => r == Route(o.answer, Coords(path))
        case Stuck(c) => r == ReconstructionFailed(Coord(c))
    ensures r.Route? ==> |r.coords| >= 1 && r.coords[0] == startCoord && r.coords[|r.coords| - 1] == goalCoord
  {
    var algorithmInstance := new PathPlanningAlgorithm(startCoord, goalCoord, field, calculatePriorityValue);
    var answer := algorithmInstance.ComputeShortestPath(computeShortestPath);
    if answer == INFINITY {
      return NoRoute;
    }
    ghost var searched := algorithmInstance.gValue;
    var route := algorithmInstance.FindShortestPath();
    match route
    case Found(path) =>
      ReconstructEndpoints(searched, field.neighbours, CellAt(startCoord), CellAt(goalCoord));
      r := Route(answer, Coords(path));
    case Stuck(c) =>
      r := ReconstructionFailed(Coord(c));
  }
}
