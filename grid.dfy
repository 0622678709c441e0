/** Board positions, shared by the game board and the playing agent. */
module Grid {

  /** A board position: (row, column) */
  type Cell = (int, int)

  /** The result of a move chooser: a cell, or `None` when there is no move to make */
  datatype Option<T> = None | Some(value: T)

  /** The side of the board the agent assumes: its neighbour list and its list of
      possible moves hard-code an 8 by 8 board, whatever size it was created with. */
  const Size := 8

  /** `c` lies on the agent's 8 by 8 board */
  predicate OnBoard(c: Cell)
  {
    0 <= c.0 < Size && 0 <= c.1 < Size
  }

  /** `x` is one of the (up to) eight cells within one row and one column of `c` */
  predicate Adjacent(c: Cell, x: Cell)
  {
    x != c && c.0 - 1 <= x.0 <= c.0 + 1 && c.1 - 1 <= x.1 <= c.1 + 1
  }

  /** The cells the agent treats as the neighbours of `c` */
  function NeighbourSet(c: Cell): set<Cell>
  {
    set i, j | c.0 - 1 <= i <= c.0 + 1 && c.1 - 1 <= j <= c.1 + 1 && (i, j) != c && OnBoard((i, j)) :: (i, j)
  }

  lemma NeighbourSetMembers(c: Cell, x: Cell)
    ensures x in NeighbourSet(c) <==> Adjacent(c, x) && OnBoard(x)
  {
    if Adjacent(c, x) && OnBoard(x) {
      assert x == (x.0, x.1);
    }
  }
}
