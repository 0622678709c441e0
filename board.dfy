/** The game itself: a board of hidden mines that answers the player's questions. */
module Game {
  import opened Grid

  /** The cells of `board` that hold a mine */
  function BoardMines(board: seq<seq<bool>>): set<Cell>
  {
    set i, j | 0 <= i < |board| && 0 <= j < |board[i]| && board[i][j] :: (i, j)
  }

  lemma BoardMinesMembers(board: seq<seq<bool>>, c: Cell)
    ensures c in BoardMines(board) <==> 0 <= c.0 < |board| && 0 <= c.1 < |board[c.0]| && board[c.0][c.1]
  {
    if 0 <= c.0 < |board| && 0 <= c.1 < |board[c.0]| && board[c.0][c.1] {
      assert c == (c.0, c.1);
    }
  }

  /** `board` has `height` rows of `width` cells each */
  predicate Rectangular(board: seq<seq<bool>>, height: int, width: int)
  {
    |board| == height && forall i :: 0 <= i < |board| ==> |board[i]| == width
  }

  /** A list index in `-n .. n - 1`, a negative one counting from the end, is the
      position `k` names modulo `n` */
  lemma IndexWrap(k: int, n: int)
    requires -n <= k < n
    ensures k % n == if k < 0 then k + n else k
  {
    if k < 0 {
      ModOfShift(k + n, n);
    } else {
      ModOfShift(k, n);
    }
  }

  /** A value in `0 .. n - 1` is its own remainder modulo `n`, and the remainder of
      that value less `n` */
  lemma ModOfShift(p: int, n: int)
    requires 0 <= p < n
    ensures p % n == p && (p - n) % n == p
  {
    assert p / n == 0;
    assert (p - n) / n == -1;
  }

  class Minesweeper {
    const height: int
    const width: int
    /** `board[i][j]` tells whether row `i`, column `j` holds a mine */
    const board: seq<seq<bool>>
    /** The cells that hold a mine */
    const mines: set<Cell>
    /** The cells the player has flagged as mines */
    var minesFound: set<Cell>

    /** The board has the stated size and `mines` lists exactly its mine cells */
    predicate Valid()
    {
      Rectangular(board, height, width) && mines == BoardMines(board)
    }

    /** `c` lies on this board */
    predicate InBounds(c: Cell)
    {
      0 <= c.0 < height && 0 <= c.1 < width
    }

    /** A game on the given board of mines; the player has flagged nothing yet */
    constructor (height: nat, width: nat, board: seq<seq<bool>>)
      requires Rectangular(board, height, width)
      ensures Valid()
      ensures this.height == height && this.width == width && this.board == board
      ensures minesFound == {}
    {
      this.height := height;
      this.width := width;
      this.board := board;
      this.mines := BoardMines(board);
      minesFound := {};
    }

    /** Whether `cell` holds a mine. A negative coordinate counts from the far end of
        its row or column, as an index into a list does. */
    function IsMine(cell: Cell): (r: bool)
      requires Valid()
      requires -height <= cell.0 < height && -width <= cell.1 < width
      ensures r <==> (cell.0 % height, cell.1 % width) in mines
      ensures InBounds(cell) ==> (r <==> cell in mines)
    {
      var i := if cell.0 < 0 then cell.0 + height else cell.0;
      var j := if cell.1 < 0 then cell.1 + width else cell.1;
      IndexWrap(cell.0, height);
      IndexWrap(cell.1, width);
      BoardMinesMembers(board, (i, j));
      board[i][j]
    }

    /** The mines within one row and one column of `cell`, not counting `cell` */
    function MineNeighbours(cell: Cell): set<Cell>
    {
      set n | n in mines && Adjacent(cell, n)
    }

    /** The number of mines within one row and one column of `cell`, not counting
        `cell` itself */
    method NearbyMines(cell: Cell) returns (count: int)
      requires Valid()
      ensures count == |MineNeighbours(cell)|
      ensures 0 <= count <= 8
      ensures height == Size && width == Size ==> count == |NeighbourSet(cell) * mines|
    {
      count := 0;
      ghost var found: set<Cell> := {};
      ghost var visited := 0;
      var i := cell.0 - 1;
      while i < cell.0 + 2
        invariant cell.0 - 1 <= i <= cell.0 + 2
        invariant forall x :: x in found <==> x in mines && Adjacent(cell, x) && x.0 < i
        invariant count == |found|
        invariant visited == 3 * (i - cell.0 + 1) - (if i > cell.0 then 1 else 0)
        invariant count <= visited
      {
        var j := cell.1 - 1;
        while j < cell.1 + 2
          invariant cell.1 - 1 <= j <= cell.1 + 2
          invariant forall x :: x in found <==> x in mines && Adjacent(cell, x) && (x.0 < i || (x.0 == i && x.1 < j))
          invariant count == |found|
          invariant visited == 3 * (i - cell.0 + 1) + (j - cell.1 + 1)
                               - (if i > cell.0 || (i == cell.0 && j > cell.1) then 1 else 0)
          invariant count <= visited
        {
          if (i, j) != cell {
            visited := visited + 1;
            BoardMinesMembers(board, (i, j));
            if 0 <= i < height && 0 <= j < width {
              if board[i][j] {
                assert (i, j) !in found;
                found := found + {(i, j)};
                count := count + 1;
              }
            }
          }
          j := j + 1;
        }
        i := i + 1;
      }
      assert found == MineNeighbours(cell);
      if height == Size && width == Size {
        NearbyMinesOnAgentBoard(this, cell);
      }
    }

    /** The player has won when the flagged cells are exactly the mines */
    function Won(): (r: bool)
      requires Valid()
      reads this
      ensures r <==> forall c :: c in minesFound <==> InBounds(c) && board[c.0][c.1]
    {
      if minesFound == mines then
        assert forall c :: c in mines <==> InBounds(c) && board[c.0][c.1] by {
          forall c ensures c in mines <==> InBounds(c) && board[c.0][c.1] {
            BoardMinesMembers(board, c);
          }
        }
        true
      else
        assert exists c :: (c in minesFound) != (c in mines);
        false
    }
  }

  /** On the 8 by 8 board the agent assumes, the mines counted around a cell are the
      mines among the cells the agent lists as its neighbours */
  lemma NearbyMinesOnAgentBoard(game: Minesweeper, cell: Cell)
    requires game.Valid() && game.height == Size && game.width == Size
    ensures game.MineNeighbours(cell) == NeighbourSet(cell) * game.mines
  {
    forall x
      ensures x in game.MineNeighbours(cell) <==> x in NeighbourSet(cell) * game.mines
    {
      NeighbourSetMembers(cell, x);
      BoardMinesMembers(game.board, x);
    }
  }
}
