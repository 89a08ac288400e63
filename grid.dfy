/**
 * The grid collaborators that the search state consumes through a narrow
 * interface: cells identified by coordinates, and a field that answers
 * neighbour and heuristic queries.  How a field is built from its textual
 * description is not part of this model, so a field is given by the two
 * queries themselves.
 */
module Grid {

  /** A grid cell, identified by its (row, column) coordinate pair. */
  datatype Cell = Cell(row: int, col: int)

  /** The coordinates a cell reports for itself. */
  function Coord(c: Cell): (int, int)
  {
    (c.row, c.col)
  }

  /** The cell a field hands out for a coordinate pair (bounds checks are not modelled). */
  function CellAt(coord: (int, int)): (c: Cell)
    ensures Coord(c) == coord
  {
    Cell(coord.0, coord.1)
  }

  /** The coordinates of every cell of a route, in the same order. */
  function Coords(cells: seq<Cell>): seq<(int, int)>
  {
    seq(|cells|, i requires 0 <= i < |cells| => Coord(cells[i]))
  }

  /** A route's coordinate list determines the route: distinct routes report distinct coordinates. */
  lemma CoordsInjective(a: seq<Cell>, b: seq<Cell>)
    ensures Coords(a) == Coords(b) <==> a == b
  {
    if Coords(a) == Coords(b) {
      forall i | 0 <= i < |a|
        ensures a[i] == b[i]
      {
        assert Coord(a[i]) == Coords(a)[i] == Coords(b)[i] == Coord(b[i]);
      }
    }
  }

  /** Converting a route piece by piece gives the conversion of the whole route. */
  lemma CoordsConcat(a: seq<Cell>, b: seq<Cell>)
    ensures Coords(a + b) == Coords(a) + Coords(b)
  {
  }

  /**
   * A field, seen through the two queries the search state makes of it:
   * the traversable neighbours of a cell, in the order the field yields
   * them, and the heuristic estimate between two cells.
   */
  datatype Field = Field(neighbours: Cell -> seq<Cell>, heuristic: (Cell, Cell) -> int)
}
