/** The agent's unit of knowledge: "exactly `count` of these `cells` are mines". */
module Sentences {
  import opened Grid

  /** A logical statement about the game: `count` of the cells in `cells` are mines.
      Two sentences are equal when their cells and counts are equal. The count is never
      checked, so a derived sentence may carry a negative count. */
  datatype Sentence = Sentence(cells: set<Cell>, count: int) {

    /** The sentence is true of the mine placement `mines` */
    predicate Holds(mines: set<Cell>)
    {
      |cells * mines| == count
    }

    /** The sentence is about one cell only */
    function IsLiteral(): (r: bool)
      ensures r <==> exists c :: c in cells && cells - {c} == {}
    {
      SingletonCells(cells);
      |cells| == 1
    }

    /** The sentence is about no cell at all */
    function IsEmptySet(): (r: bool)
      ensures r <==> |cells| == 0
      ensures r ==> KnownSafes() == {} && KnownMines() == {}
    {
      cells == {}
    }

    /** The cells this sentence alone shows to be mines: all of them when the count
        equals the number of cells, none otherwise */
    function KnownMines(): (r: set<Cell>)
      ensures r <= cells
      ensures count == |cells| ==> r == cells
      ensures count != |cells| ==> r == {}
    {
      if count == |cells| then cells else {}
    }

    /** The cells this sentence alone shows to be safe: all of them when the count is
        zero, none otherwise */
    function KnownSafes(): (r: set<Cell>)
      ensures r <= cells
      ensures count == 0 ==> r == cells
      ensures count != 0 ==> r == {}
    {
      if count == 0 then cells else {}
    }

    /** The sentence once `c` is known to be a mine: `c` leaves it and takes one off
        the count; a sentence without `c` is left as it is */
    function MarkMine(c: Cell): (r: Sentence)
      ensures c !in r.cells
      ensures c in cells ==> r.cells == cells - {c} && r.count == count - 1
      ensures c !in cells ==> r == this
    {
      if c in cells then Sentence(cells - {c}, count - 1) else this
    }

    /** The sentence once `c` is known to be safe: `c` leaves it, the count stays */
    function MarkSafe(c: Cell): (r: Sentence)
      ensures r.cells == cells - {c} && r.count == count
    {
      if c in cells then Sentence(cells - {c}, count) else this
    }

    /** The sentence once every cell of `xs` has been marked a mine, in any order */
    function WithoutMines(xs: set<Cell>): Sentence
    {
      Sentence(cells - xs, count - |cells * xs|)
    }

    /** The sentence once every cell of `xs` has been marked safe, in any order */
    function WithoutSafes(xs: set<Cell>): Sentence
    {
      Sentence(cells - xs, count)
    }
  }

  /** The cells of `a` split into those outside `b` and those inside it */
  lemma SplitCells(a: set<Cell>, b: set<Cell>)
    ensures |a - b| + |a * b| == |a|
  {
    assert a == (a - b) + (a * b);
    assert (a - b) * (a * b) == {};
  }

  /** Marking mines takes the marked cells out and leaves the number of cells that
      are not mines, the cells less the count, unchanged; cells already absent
      change nothing */
  lemma WithoutMinesKeepsSafeCount(s: Sentence, xs: set<Cell>)
    ensures s.WithoutMines(xs).cells <= s.cells && s.WithoutMines(xs).cells !! xs
    ensures |s.cells| - s.count == |s.WithoutMines(xs).cells| - s.WithoutMines(xs).count
    ensures s.cells !! xs ==> s.WithoutMines(xs) == s
  {
    SplitCells(s.cells, xs);
    if s.cells !! xs {
      assert s.cells - xs == s.cells;
    }
  }

  /** Marking safe cells takes exactly the marked cells out and keeps the count;
      cells already absent change nothing */
  lemma WithoutSafesKeepsCount(s: Sentence, xs: set<Cell>)
    ensures s.WithoutSafes(xs).cells <= s.cells && s.WithoutSafes(xs).cells !! xs
    ensures s.WithoutSafes(xs).count == s.count
    ensures |s.WithoutSafes(xs).cells| == |s.cells| - |s.cells * xs|
    ensures s.cells !! xs ==> s.WithoutSafes(xs) == s
  {
    SplitCells(s.cells, xs);
    if s.cells !! xs {
      assert s.cells - xs == s.cells;
    }
  }

  /** A set has one element exactly when taking some member out of it leaves nothing */
  lemma SingletonCells(xs: set<Cell>)
    ensures |xs| == 1 <==> exists c :: c in xs && xs - {c} == {}
  {
    if |xs| == 1 {
      var c :| c in xs;
      assert |xs - {c}| == 0;
    } else {
      forall c | c in xs
        ensures xs - {c} != {}
      {
        assert |xs - {c}| == |xs| - 1;
      }
    }
  }

  /** Marking one mine is marking the one-cell set */
  lemma MarkMineIsWithoutMines(s: Sentence, c: Cell)
    ensures s.MarkMine(c) == s.WithoutMines({c})
  {
    if c in s.cells {
      assert s.cells * {c} == {c};
    } else {
      assert s.cells * {c} == {};
    }
  }

  /** Marking one safe cell is marking the one-cell set */
  lemma MarkSafeIsWithoutSafes(s: Sentence, c: Cell)
    ensures s.MarkSafe(c) == s.WithoutSafes({c})
  {
  }

  /** Marking the mines of `a` and then those of `b` is marking those of `a + b`: the
      order in which cells are marked does not matter, and marking twice is marking once */
  lemma WithoutMinesCompose(s: Sentence, a: set<Cell>, b: set<Cell>)
    ensures s.WithoutMines(a).WithoutMines(b) == s.WithoutMines(a + b)
  {
    var c := s.cells;
    assert c * (a + b) == c * a + (c - a) * b;
    assert (c * a) * ((c - a) * b) == {};
    assert c - a - b == c - (a + b);
  }

  /** Marking safe cells composes in the same way */
  lemma WithoutSafesCompose(s: Sentence, a: set<Cell>, b: set<Cell>)
    ensures s.WithoutSafes(a).WithoutSafes(b) == s.WithoutSafes(a + b)
  {
    assert s.cells - a - b == s.cells - (a + b);
  }

  /** Under any placement that makes the sentence true, its known mines are mines */
  lemma KnownMinesSound(s: Sentence, mines: set<Cell>)
    requires s.Holds(mines)
    ensures s.KnownMines() <= mines
  {
    if s.count == |s.cells| {
      var c := s.cells;
      assert |c - mines| + |c * mines| == |c| by {
        assert c == (c - mines) + (c * mines);
        assert (c - mines) * (c * mines) == {};
      }
      assert |c - mines| == 0;
      forall x | x in c
        ensures x in mines
      {
        assert x !in c - mines;
      }
    }
  }

  /** Under any placement that makes the sentence true, its known safe cells are not mines */
  lemma KnownSafesSound(s: Sentence, mines: set<Cell>)
    requires s.Holds(mines)
    ensures s.KnownSafes() !! mines
  {
    if s.count == 0 {
      assert s.cells * mines == {};
      forall x | x in s.cells
        ensures x !in mines
      {
        assert x !in s.cells * mines;
      }
    }
  }

  /** Taking true mines out of a true sentence keeps it true */
  lemma WithoutMinesSound(s: Sentence, mines: set<Cell>, xs: set<Cell>)
    requires s.Holds(mines) && xs <= mines
    ensures s.WithoutMines(xs).Holds(mines)
  {
    var c := s.cells;
    assert c * mines == (c - xs) * mines + c * xs;
    assert ((c - xs) * mines) * (c * xs) == {};
  }

  /** Taking true safe cells out of a true sentence keeps it true */
  lemma WithoutSafesSound(s: Sentence, mines: set<Cell>, xs: set<Cell>)
    requires s.Holds(mines) && xs !! mines
    ensures s.WithoutSafes(xs).Holds(mines)
  {
    assert (s.cells - xs) * mines == s.cells * mines;
  }
}
