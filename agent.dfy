/** The playing agent: the cells it has played, the cells it knows to be mines or
    safe, and its list of sentences, all updated in place. */
module Agent {
  import opened Grid
  import opened Sentences
  import Knowledge

  /** `a` comes before `b` in row-major order */
  predicate Before(a: Cell, b: Cell)
  {
    a.0 < b.0 || (a.0 == b.0 && a.1 < b.1)
  }

  class MinesweeperAI {
    const height: int
    const width: int

    /** The cells played so far */
    var movesMade: set<Cell>
    /** The cells known to be mines */
    var mines: set<Cell>
    /** The cells known to be safe */
    var safes: set<Cell>
    /** The sentences known to be true */
    var knowledge: seq<Sentence>

    /** The knowledge base held in the fields */
    function View(): Knowledge.KB
      reads this
    {
      Knowledge.KB(mines, safes, knowledge)
    }

    constructor (height: int, width: int)
      ensures this.height == height && this.width == width
      ensures movesMade == {} && mines == {} && safes == {} && knowledge == []
    {
      this.height := height;
      this.width := width;
      movesMade := {};
      mines := {};
      safes := {};
      knowledge := [];
    }

    /** Records `c` as a mine and takes it out of every sentence that mentions it */
    method MarkMine(c: Cell)
      modifies this
      ensures View() == Knowledge.MarkMines(old(View()), {c})
      ensures c in mines && forall s :: s in knowledge ==> c !in s.cells
      ensures movesMade == old(movesMade)
    {
      mines := mines + {c};
      var i := 0;
      while i < |knowledge|
        invariant 0 <= i <= |knowledge| == |old(knowledge)|
        invariant mines == old(mines) + {c} && safes == old(safes) && movesMade == old(movesMade)
        invariant forall j :: 0 <= j < i ==> knowledge[j] == old(knowledge)[j].WithoutMines({c})
        invariant forall j :: i <= j < |knowledge| ==> knowledge[j] == old(knowledge)[j]
      {
        MarkMineIsWithoutMines(knowledge[i], c);
        if c in knowledge[i].cells {
          knowledge := knowledge[i := knowledge[i].MarkMine(c)];
        }
        i := i + 1;
      }
      Knowledge.MarkMinesPointwise(old(View()), {c}, knowledge);
    }

    /** Records `c` as safe and takes it out of every sentence that mentions it */
    method MarkSafe(c: Cell)
      modifies this
      ensures View() == Knowledge.MarkSafes(old(View()), {c})
      ensures c in safes && forall s :: s in knowledge ==> c !in s.cells
      ensures movesMade == old(movesMade)
    {
      safes := safes + {c};
      var i := 0;
      while i < |knowledge|
        invariant 0 <= i <= |knowledge| == |old(knowledge)|
        invariant safes == old(safes) + {c} && mines == old(mines) && movesMade == old(movesMade)
        invariant forall j :: 0 <= j < i ==> knowledge[j] == old(knowledge)[j].WithoutSafes({c})
        invariant forall j :: i <= j < |knowledge| ==> knowledge[j] == old(knowledge)[j]
      {
        MarkSafeIsWithoutSafes(knowledge[i], c);
        if c in knowledge[i].cells {
          knowledge := knowledge[i := knowledge[i].MarkSafe(c)];
        }
        i := i + 1;
      }
      Knowledge.MarkSafesPointwise(old(View()), {c}, knowledge);
    }

    /** `mark_mine` on every cell of `xs`, in an arbitrary order */
    method MarkAllMines(xs: set<Cell>)
      modifies this
      ensures View() == Knowledge.MarkMines(old(View()), xs)
      ensures movesMade == old(movesMade)
    {
      Knowledge.MarkMinesNone(View());
      var rest := xs;
      while rest != {}
        invariant rest <= xs
        invariant View() == Knowledge.MarkMines(old(View()), xs - rest)
        invariant movesMade == old(movesMade)
        decreases rest
      {
        var c :| c in rest;
        MarkMine(c);
        Knowledge.MarkMinesCompose(old(View()), xs - rest, {c});
        assert (xs - rest) + {c} == xs - (rest - {c});
        rest := rest - {c};
      }
      assert xs - rest == xs;
    }

    /** `mark_safe` on every cell of `xs`, in an arbitrary order */
    method MarkAllSafes(xs: set<Cell>)
      modifies this
      ensures View() == Knowledge.MarkSafes(old(View()), xs)
      ensures movesMade == old(movesMade)
    {
      Knowledge.MarkSafesNone(View());
      var rest := xs;
      while rest != {}
        invariant rest <= xs
        invariant View() == Knowledge.MarkSafes(old(View()), xs - rest)
        invariant movesMade == old(movesMade)
        decreases rest
      {
        var c :| c in rest;
        MarkSafe(c);
        Knowledge.MarkSafesCompose(old(View()), xs - rest, {c});
        assert (xs - rest) + {c} == xs - (rest - {c});
        rest := rest - {c};
      }
      assert xs - rest == xs;
    }

    /** The cells around `cell` on the 8 by 8 board, in row-major order */
    method Neighbors(cell: Cell) returns (ns: seq<Cell>)
      ensures forall x :: x in ns <==> x in NeighbourSet(cell)
      ensures forall p, q :: 0 <= p < q < |ns| ==> Before(ns[p], ns[q])
      ensures forall p, q :: 0 <= p < q < |ns| ==> ns[p] != ns[q]
      ensures |ns| <= 8
    {
      ns := [];
      ghost var visited := 0;
      var i := cell.0 - 1;
      while i < cell.0 + 2
        invariant cell.0 - 1 <= i <= cell.0 + 2
        invariant forall x :: x in ns <==> Adjacent(cell, x) && OnBoard(x) && x.0 < i
        invariant forall p, q :: 0 <= p < q < |ns| ==> Before(ns[p], ns[q])
        invariant forall p :: 0 <= p < |ns| ==> ns[p].0 < i
        invariant visited == 3 * (i - cell.0 + 1) - (if i > cell.0 then 1 else 0)
        invariant |ns| <= visited
      {
        var j := cell.1 - 1;
        while j < cell.1 + 2
          invariant cell.1 - 1 <= j <= cell.1 + 2
          invariant forall x :: x in ns <==> Adjacent(cell, x) && OnBoard(x) && (x.0 < i || (x.0 == i && x.1 < j))
          invariant forall p, q :: 0 <= p < q < |ns| ==> Before(ns[p], ns[q])
          invariant forall p :: 0 <= p < |ns| ==> Before(ns[p], (i, j))
          invariant visited == 3 * (i - cell.0 + 1) + (j - cell.1 + 1)
                               - (if i > cell.0 || (i == cell.0 && j > cell.1) then 1 else 0)
          invariant |ns| <= visited
        {
          if (i, j) != cell {
            visited := visited + 1;
            if 0 <= i < Size && 0 <= j < Size {
              ns := ns + [(i, j)];
            }
          }
          j := j + 1;
        }
        i := i + 1;
      }
      forall x
        ensures x in ns <==> x in NeighbourSet(cell)
      {
        NeighbourSetMembers(cell, x);
      }
    }

    /** What resolve works through: `sentence`, then what it derives against each
        sentence of the knowledge, in order */
    method DeriveCandidates(sentence: Sentence) returns (candidates: seq<Sentence>)
      ensures candidates == Knowledge.Candidates(View(), sentence)
    {
      candidates := [sentence];
      var i := 0;
      while i < |knowledge|
        invariant 0 <= i <= |knowledge|
        invariant candidates == [sentence] + Knowledge.Derivations(sentence, knowledge[..i])
      {
        var k := knowledge[i];
        assert knowledge[..i + 1][..i] == knowledge[..i];
        if sentence.cells != k.cells {
          if sentence.cells <= k.cells {
            candidates := candidates + [Sentence(k.cells - sentence.cells, k.count - sentence.count)];
          } else if sentence.cells >= k.cells {
            candidates := candidates + [Sentence(sentence.cells - k.cells, sentence.count - k.count)];
          }
        }
        i := i + 1;
      }
      assert knowledge[..i] == knowledge;
    }

    /** Handles one candidate of resolve: a non-empty one settles its cells when its
        count says they are all safe or all mines, and is then appended */
    method AbsorbCandidate(c: Sentence)
      modifies this
      ensures View() == Knowledge.Absorb(old(View()), c)
      ensures movesMade == old(movesMade)
    {
      if c.cells != {} {
        if c.count == 0 {
          MarkAllSafes(c.cells);
        } else if |c.cells| == c.count {
          MarkAllMines(c.cells);
        }
        knowledge := knowledge + [c];
      }
    }

    /** Adds `sentence` and what it derives against the current sentences, marking the
        cells of each zero-count one safe and those of each full-count one mines */
    method Resolve(sentence: Sentence)
      modifies this
      ensures View() == Knowledge.Resolve(old(View()), sentence)
      ensures movesMade == old(movesMade)
    {
      var candidates := DeriveCandidates(sentence);
      ghost var start := View();
      var j := 0;
      while j < |candidates|
        invariant 0 <= j <= |candidates|
        invariant View() == Knowledge.AbsorbAll(start, candidates[..j])
        invariant movesMade == old(movesMade)
      {
        assert candidates[..j + 1][..j] == candidates[..j];
        AbsorbCandidate(candidates[j]);
        j := j + 1;
      }
      assert candidates[..j] == candidates;
    }

    /** The cells of `s` already known to be safe, and those known to be mines but
        not safe */
    method KnownParts(s: Sentence) returns (newSafes: set<Cell>, newMines: set<Cell>)
      ensures newSafes == s.cells * safes
      ensures newMines == (s.cells - safes) * mines
    {
      newSafes, newMines := {}, {};
      var rest := s.cells;
      while rest != {}
        invariant rest <= s.cells
        invariant newSafes == (s.cells - rest) * safes
        invariant newMines == ((s.cells - rest) - safes) * mines
        decreases rest
      {
        var c :| c in rest;
        if c in safes {
          newSafes := newSafes + {c};
        } else if c in mines {
          newMines := newMines + {c};
        }
        rest := rest - {c};
      }
      assert s.cells - rest == s.cells;
    }

    /** Resolves the known safe cells, then the known mines, of a sentence that
        settles nothing by itself */
    method UseKnownCells(s: Sentence) returns (changed: bool)
      modifies this
      ensures (View(), changed) == Knowledge.UseKnownCells(old(View()), s)
      ensures movesMade == old(movesMade)
    {
      var newSafes, newMines := KnownParts(s);
      changed := false;
      if |newSafes| > 0 {
        Resolve(Sentence(newSafes, 0));
        changed := true;
      }
      if |newMines| > 0 {
        Resolve(Sentence(newMines, |newMines|));
        changed := true;
      }
    }

    /** One turn of update_whats_known's inner loop, on the sentence at position `i` */
    method VisitSentence(i: nat) returns (changed: bool)
      requires i < |knowledge|
      modifies this
      ensures (View(), changed) == Knowledge.Visit(old(View()), i)
      ensures movesMade == old(movesMade)
    {
      var s := knowledge[i];
      if |s.KnownSafes()| > 0 {
        MarkAllSafes(s.cells);
        knowledge := Knowledge.RemoveFirst(knowledge, knowledge[i]);
        changed := true;
      } else if |s.KnownMines()| > 0 {
        MarkAllMines(s.cells);
        knowledge := Knowledge.RemoveFirst(knowledge, knowledge[i]);
        changed := true;
      } else if |s.cells| > 0 {
        changed := UseKnownCells(s);
      } else {
        knowledge := Knowledge.RemoveFirst(knowledge, s);
        changed := false;
      }
    }

    /** VisitSentence as one step of Run */
    method Turn(i: nat, done: bool, left: nat) returns (doneAfter: bool)
      requires i < |knowledge|
      modifies this
      ensures Knowledge.Run(old(View()), i, done, left + 1) == Knowledge.Run(View(), i + 1, doneAfter, left)
      ensures movesMade == old(movesMade)
    {
      ghost var before := View();
      var changed := VisitSentence(i);
      Knowledge.RunVisit(before, View(), i, done, changed, left);
      doneAfter := done || changed;
    }

    /** One pass of update_whats_known's inner loop over the sentences, allowed
        `budget` visits: `left` visits remain, `done` tells whether a visit asked for
        another pass, and `exhausted` whether the budget ran out before the end */
    method Pass(budget: nat) returns (left: nat, done: bool, exhausted: bool)
      modifies this
      ensures exhausted ==> Knowledge.Run(old(View()), 0, false, budget) == (View(), false)
      ensures !exhausted && done ==> Knowledge.Run(old(View()), 0, false, budget) == Knowledge.Run(View(), 0, false, left)
      ensures !exhausted && !done ==> Knowledge.Run(old(View()), 0, false, budget) == (View(), true)
      ensures !exhausted && done ==> left < budget
      ensures left <= budget
      ensures movesMade == old(movesMade)
    {
      ghost var kb := View();
      ghost var goal := Knowledge.Run(kb, 0, false, budget);
      left, done, exhausted := budget, false, false;
      var i := 0;
      while i < |knowledge|
        invariant kb == View()
        invariant Knowledge.Run(kb, i, done, left) == goal
        invariant left + i == budget
        invariant i == 0 ==> !done
        invariant movesMade == old(movesMade)
        decreases left
      {
        if left == 0 {
          Knowledge.RunOutOfFuel(kb, i, done);
          exhausted := true;
          return;
        }
        left := left - 1;
        done := Turn(i, done, left);
        kb := View();
        i := i + 1;
      }
      Knowledge.RunEndOfPass(kb, i, done, left);
    }

    /** Repeats passes over the sentences until a pass changes nothing, allowed `fuel`
        sentence visits in all; `completed` is false when the fuel ran out first */
    method UpdateWhatsKnown(fuel: nat) returns (completed: bool)
      modifies this
      ensures (View(), completed) == Knowledge.UpdateWhatsKnown(old(View()), fuel)
      ensures old(mines) <= mines && old(safes) <= safes && movesMade == old(movesMade)
    {
      ghost var goal := Knowledge.UpdateWhatsKnown(View(), fuel);
      var budget: nat := fuel;
      var done := true;
      while done
        invariant done ==> Knowledge.Run(View(), 0, false, budget) == goal
        invariant !done ==> (View(), true) == goal
        invariant movesMade == old(movesMade)
        decreases budget, if done then 1 else 0
      {
        var exhausted;
        budget, done, exhausted := Pass(budget);
        if exhausted {
          return false;
        }
      }
      return true;
    }

    /** Takes in that `cell` was played and that `count` of its neighbours are mines */
    method AddKnowledge(cell: Cell, count: int, fuel: nat) returns (completed: bool)
      modifies this
      ensures movesMade == old(movesMade) + {cell}
      ensures (View(), completed) == Knowledge.AddKnowledge(old(View()), cell, count, fuel)
      ensures cell in movesMade && cell in safes
      ensures old(mines) <= mines && old(safes) <= safes
    {
      movesMade := movesMade + {cell};
      MarkSafe(cell);
      var neighbours := Neighbors(cell);
      var cells := set c | c in neighbours;
      var sentence := Sentence(cells, count);
      assert sentence.cells == NeighbourSet(cell);
      Resolve(sentence);
      completed := UpdateWhatsKnown(fuel);
    }

    /** Every cell of the 8 by 8 board, in row-major order */
    method PossibleMoves() returns (moves: seq<Cell>)
      ensures |moves| == Size * Size
      ensures forall k :: 0 <= k < |moves| ==> moves[k] == (k / Size, k % Size)
      ensures forall x :: x in moves <==> OnBoard(x)
    {
      moves := [];
      var row := 0;
      while row < Size
        invariant 0 <= row <= Size
        invariant |moves| == Size * row
        invariant forall k :: 0 <= k < |moves| ==> moves[k] == (k / Size, k % Size)
      {
        var col := 0;
        while col < Size
          invariant 0 <= col <= Size
          invariant |moves| == Size * row + col
          invariant forall k :: 0 <= k < |moves| ==> moves[k] == (k / Size, k % Size)
        {
          moves := moves + [(row, col)];
          col := col + 1;
        }
        row := row + 1;
      }
      forall x | OnBoard(x)
        ensures x in moves
      {
        assert moves[Size * x.0 + x.1] == x;
      }
    }

    /** A cell known to be safe and not yet played, or None when there is none */
    method MakeSafeMove() returns (move: Option<Cell>)
      ensures move.Some? ==> move.value in safes && move.value !in movesMade
      ensures move.None? <==> safes <= movesMade
    {
      var rightMoves := safes - movesMade;
      if rightMoves != {} {
        var c :| c in rightMoves;
        move := Some(c);
      } else {
        forall x | x in safes
          ensures x in movesMade
        {
          assert x !in rightMoves;
        }
        move := None;
      }
    }

    /** A cell of the 8 by 8 board neither played nor known to be a mine, or None
        when there is none */
    method MakeRandomMove() returns (move: Option<Cell>)
      ensures move.Some? ==> OnBoard(move.value) && move.value !in mines && move.value !in movesMade
      ensures move.None? <==> forall x :: OnBoard(x) ==> x in mines || x in movesMade
    {
      var wrongMoves := mines + movesMade;
      var all := PossibleMoves();
      var sensibleMoves: seq<Cell> := [];
      var k := 0;
      while k < |all|
        invariant 0 <= k <= |all|
        invariant forall x :: x in sensibleMoves <==> x in all[..k] && x !in wrongMoves
      {
        assert all[..k + 1] == all[..k] + [all[k]];
        if all[k] !in wrongMoves {
          sensibleMoves := sensibleMoves + [all[k]];
        }
        k := k + 1;
      }
      assert all[..k] == all;
      if |sensibleMoves| > 0 {
        var index :| 0 <= index < |sensibleMoves|;
        move := Some(sensibleMoves[index]);
      } else {
        move := None;
      }
    }
  }
}
