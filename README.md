# Minesweeper knowledge-based agent, modelled in Dafny

The repository plays Minesweeper with a logical agent. The agent's knowledge is a list of
*sentences*. Each sentence says that exactly `count` of a set of cells are mines. Next to
the list, the agent keeps three sets of cells: those it has played, those it knows are
mines and those it knows are safe.

When the board reports how many mines surround a played cell, `add_knowledge` records
the move and marks the cell safe. It then builds the sentence over the cell's neighbours
and *resolves* it. Resolving derives difference sentences against every known sentence
whose cells are a strict subset or superset of it. After that, `update_whats_known`
repeatedly sweeps the list:

- it settles sentences that are all-safe or all-mine;
- it resolves the known safe and mine cells of the others;
- it drops empty sentences.

The game itself holds the board of mines. It answers `is_mine` and `nearby_mines`, and
`won` tells whether the player's flags match the mines.

The model is split into these modules:

- `Grid` (`grid.dfy`): cells, the agent's hard-coded 8 by 8 board and its neighbourhood.
- `Sentences` (`sentence.dfy`): the sentence as a value. It defines
  - its known mines and known safe cells;
  - marking one cell, or a set of cells, as a mine or as safe;
  - soundness lemmas: what a sentence that is true of a mine placement lets one
    conclude.
- `Knowledge` (`knowledge.dfy`): the agent's state as a value `KB(mines, safes,
  knowledge)`. Every state-changing operation of the agent has a function here that says
  exactly what the operation does to that value. Lemmas state what each operation concludes:
  - marking composes and is idempotent;
  - resolve derives exactly the difference sentences;
  - resolve marks exactly the cells of its zero-count and full-count candidates;
  - the clean-up loop never loses a known cell.
- `Agent` (`agent.dfy`): the class `MinesweeperAI`, with the source's fields updated in
  place by methods with loops. Each mutating method's `ensures` gives the new view
  `View()` as a `Knowledge` function of the old view; `Turn` and `Pass` are stated
  against `Knowledge.Run`. Some methods also return a flag, although no Python method
  does. For `UseKnownCells` and `VisitSentence` the flag is the local `done`
  assignment of a turn (minesweeper.py:246, 253, 267, 271). For `UpdateWhatsKnown` and
  `AddKnowledge` it reports whether the clean-up loop finished within its `fuel` budget,
  a bound the source does not have.
- `Game` (`board.dfy`): the class `Minesweeper` over a `seq<seq<bool>>` board, with
  `is_mine`, `nearby_mines` and `won`.
- `Scenarios` (`scenarios.dfy`): the situations that `test.py` sets up, stated as
  lemmas about the `Knowledge` functions.

The clean-up loop iterates over a list that it removes from and appends to. It follows
Python's list iterator:

- a position that always advances, so the sentence after a removed one is skipped and
  appended sentences are visited;
- `list.remove` removes the first sentence equal to the visited one, which need not be
  the one at the current position.

The source gives no bound on that loop, so the model runs it with a `fuel` budget of
sentence visits and reports whether the loop finished within it.

Some details of the code are easy to miss; the model follows them:

- resolve appends every non-empty candidate, including those whose cells it has just
  marked (minesweeper.py:234);
- a count-0 candidate is checked before a full-count one (minesweeper.py:226-232);
- a settled sentence is removed by value, which removes the first equal sentence in the
  list (minesweeper.py:245, 252, 274);
- the clean-up loop is not guaranteed to terminate.

## Model

| member | source | states |
|---|---|---|
| Grid.NeighbourSetMembers | minesweeper.py:197-207 | a cell is a neighbour of `c` exactly when it is on the 8 by 8 board, differs from `c` and lies within one row and one column of it |
| Sentences.Sentence.IsLiteral | minesweeper.py:108-109 | true exactly when the sentence has a single cell |
| Sentences.Sentence.IsEmptySet | minesweeper.py:111-112 | true exactly when the sentence has no cells, and then it has no known mines or safe cells |
| Sentences.Sentence.KnownMines | minesweeper.py:114-121 | all the cells when the count equals their number, none otherwise, and always a subset of the cells |
| Sentences.Sentence.KnownSafes | minesweeper.py:123-131 | all the cells when the count is zero, none otherwise, and always a subset of the cells |
| Sentences.Sentence.MarkMine | minesweeper.py:133-140 | a member cell is removed and the count drops by exactly one; a non-member leaves the sentence unchanged; the cell is never left in it |
| Sentences.Sentence.MarkSafe | minesweeper.py:142-149 | the cell is removed and the count is unchanged |
| Sentences.MarkMineIsWithoutMines | minesweeper.py:133-140 | marking one mine equals marking the one-cell set |
| Sentences.MarkSafeIsWithoutSafes | minesweeper.py:142-149 | marking one safe cell equals marking the one-cell set |
| Sentences.WithoutMinesKeepsSafeCount | minesweeper.py:227-232 | marking a set of cells as mines, one `mark_mine` per cell, leaves a subset of the cells without the marked ones, keeps the number of cells that are not mines, and changes nothing when no marked cell is in the sentence |
| Sentences.WithoutSafesKeepsCount | minesweeper.py:227-228 | marking a set of cells safe removes exactly the marked cells that were in the sentence and keeps the count; it changes nothing when none was |
| Sentences.WithoutMinesCompose | minesweeper.py:133-140 | marking the mines of `a`, then those of `b`, equals marking those of `a + b`, so the order of one-cell calls does not matter and a repeat changes nothing |
| Sentences.WithoutSafesCompose | minesweeper.py:142-149 | the same for safe cells |
| Sentences.KnownMinesSound | minesweeper.py:114-121 | if the sentence is true of a mine placement, its known mines are mines there |
| Sentences.KnownSafesSound | minesweeper.py:123-131 | if the sentence is true of a mine placement, its known safe cells are not mines there |
| Sentences.WithoutMinesSound | minesweeper.py:133-140 | removing true mines keeps a true sentence true |
| Sentences.WithoutSafesSound | minesweeper.py:142-149 | removing true safe cells keeps a true sentence true |
| Knowledge.MarkMines | minesweeper.py:177-185 | the cells join `mines` and `safes` is unchanged; the list keeps its length and order; every sentence loses those cells and its count drops by the number of them it held; a sentence without them is unchanged |
| Knowledge.MarkSafes | minesweeper.py:187-195 | the cells join `safes` and `mines` is unchanged; the list keeps its length and order; every sentence loses those cells and keeps its count |
| Knowledge.MarkMinesPointwise | minesweeper.py:177-185 | a list whose every sentence has had the cells marked as mines, in place, is the knowledge of `MarkMines`, and no sentence of it mentions them |
| Knowledge.MarkSafesPointwise | minesweeper.py:187-195 | the same for cells marked safe |
| Knowledge.MarkMinesNone | minesweeper.py:177-185 | marking no cell changes nothing |
| Knowledge.MarkSafesNone | minesweeper.py:187-195 | marking no cell changes nothing |
| Knowledge.MarkMinesCompose | minesweeper.py:177-185 | marking the mines of `a`, then those of `b`, equals marking those of `a + b` |
| Knowledge.MarkSafesCompose | minesweeper.py:187-195 | marking the safe cells of `a`, then those of `b`, equals marking those of `a + b` |
| Knowledge.MarkMinesIdempotent | minesweeper.py:177-185 | a second identical `mark_mine` changes nothing |
| Knowledge.MarkSafesIdempotent | minesweeper.py:187-195 | a second identical `mark_safe` changes nothing |
| Knowledge.Derive | minesweeper.py:215-220 | something is derived exactly when one cell set strictly contains the other. The result is the difference sentence of the larger minus the smaller, with non-empty cells; equal cell sets yield nothing |
| Knowledge.Derivations | minesweeper.py:211-220 | at most one derivation per known sentence, none with empty cells |
| Knowledge.DerivationsExact | minesweeper.py:211-220 | a sentence is derived exactly when some known sentence at call time derives it |
| Knowledge.CandidatesExact | minesweeper.py:210-220 | resolve's candidates are the sentence itself first, then at most one non-empty sentence per known sentence; a sentence is among the rest exactly when some sentence known at call time derives it |
| Knowledge.Absorb | minesweeper.py:223-234 | an empty candidate changes nothing. Otherwise a count of zero adds its cells to `safes`, and a count equal to its size adds them to `mines`. In every case the candidate is appended as it stands |
| Knowledge.AbsorbAll | minesweeper.py:223-234 | handling candidates never removes a known cell and never shortens the list |
| Knowledge.AbsorbAllConclusions | minesweeper.py:223-234 | the safe cells gained are exactly the cells of the non-empty zero-count candidates. The mines gained are exactly the cells of the non-empty full-count candidates. One sentence is appended per non-empty candidate |
| Knowledge.Resolve | minesweeper.py:209-234 | resolve never removes a known mine or safe cell and never shortens the knowledge |
| Knowledge.ResolveConclusions | minesweeper.py:209-234 | the same three facts for `resolve(s)`, whose candidates are `s` and its derivations |
| Knowledge.IndexOf | minesweeper.py:245 | the position of the first sentence equal to the given one |
| Knowledge.RemoveFirst | minesweeper.py:245 | `list.remove` takes out exactly one copy of the sentence (the multiset loses one `x`): the first equal one, with the sentences before it unchanged and those after it shifted down by one in order |
| Knowledge.KnownParts | minesweeper.py:257-263 | splits the sentence's known cells in two, disjoint and inside the sentence: the known safe ones, and the known mines that are not also safe. Together they are every cell of the sentence that is known either way |
| Knowledge.UseKnownCells | minesweeper.py:256-271 | resolving a sentence's known safe and mine cells never removes a known cell |
| Knowledge.RemoveVisited | minesweeper.py:240-274 | removing the visited sentence's first equal copy keeps both sets and shortens the list by one |
| Knowledge.Visit | minesweeper.py:240-274 | one turn of the clean-up loop never removes a known cell |
| Knowledge.Run | minesweeper.py:236-274 | the clean-up loop, from any position and with any fuel, never removes a known cell |
| Knowledge.TurnAt | minesweeper.py:240-274 | a turn at a position holding a sentence never removes a known cell |
| Knowledge.RunVisit | minesweeper.py:240-274 | iterator-step equation: with fuel left, the loop visits the sentence at the current position and moves to the next position |
| Knowledge.RunOutOfFuel | minesweeper.py:240 | iterator-step equation: with no fuel left, the loop stops with the flag saying it did not finish |
| Knowledge.RunEndOfPass | minesweeper.py:238-240 | iterator-step equation: past the last sentence the loop starts another pass if a turn set `done`, and otherwise finishes |
| Knowledge.UpdateWhatsKnown | minesweeper.py:236-274 | the clean-up, started at the first sentence with `done` false, never removes a known mine or safe cell, however much fuel it is given |
| Knowledge.UpdateKeepsFirstVisit | minesweeper.py:236-274 | whatever the first visit concludes, `update_whats_known` keeps |
| Knowledge.AddKnowledge | minesweeper.py:276-309 | the played cell ends up safe and no known cell is lost |
| Agent.MinesweeperAI.constructor | minesweeper.py:157-171 | an agent with nothing played, nothing known and no sentences |
| Agent.MinesweeperAI.MarkMine | minesweeper.py:177-185 | the state becomes `MarkMines(old, {c})`: `c` is a mine, no sentence contains it, and the moves are unchanged |
| Agent.MinesweeperAI.MarkSafe | minesweeper.py:187-195 | the state becomes `MarkSafes(old, {c})`: `c` is safe, no sentence contains it, and the moves are unchanged |
| Agent.MinesweeperAI.MarkAllMines | minesweeper.py:231-232 | marking the cells one by one, in any order, gives `MarkMines(old, xs)` |
| Agent.MinesweeperAI.MarkAllSafes | minesweeper.py:227-228 | marking the cells one by one, in any order, gives `MarkSafes(old, xs)` |
| Agent.MinesweeperAI.Neighbors | minesweeper.py:197-207 | lists exactly the neighbour cells on the 8 by 8 board, in row-major order, without duplicates, at most eight |
| Agent.MinesweeperAI.DeriveCandidates | minesweeper.py:210-220 | the candidate list is the sentence followed by its derivations against the current knowledge, in order |
| Agent.MinesweeperAI.AbsorbCandidate | minesweeper.py:224-234 | handling one candidate gives `Absorb(old, c)` |
| Agent.MinesweeperAI.Resolve | minesweeper.py:209-234 | the state becomes `Resolve(old, s)` and the moves are unchanged |
| Agent.MinesweeperAI.KnownParts | minesweeper.py:257-263 | the cells of the sentence known to be safe, and those known to be mines but not safe |
| Agent.MinesweeperAI.UseKnownCells | minesweeper.py:256-271 | the state and the flag become `UseKnownCells(old, s)` |
| Agent.MinesweeperAI.VisitSentence | minesweeper.py:240-274 | the state and the flag become `Visit(old, i)` |
| Agent.MinesweeperAI.Turn | minesweeper.py:240-274 | one visit advances `Run` by one position at the cost of one unit of fuel |
| Agent.MinesweeperAI.Pass | minesweeper.py:239-274 | one sweep of the list: it either runs out of fuel, or reaches the end and finishes or starts another pass, always as `Run` says |
| Agent.MinesweeperAI.UpdateWhatsKnown | minesweeper.py:236-274 | the state and the completion flag become `UpdateWhatsKnown(old, fuel)`; no known cell is lost and the moves are unchanged |
| Agent.MinesweeperAI.AddKnowledge | minesweeper.py:276-309 | the cell joins the moves and the safe cells, no known cell is lost, and the state becomes `AddKnowledge(old, cell, count, fuel)` |
| Agent.MinesweeperAI.PossibleMoves | minesweeper.py:311-318 | all 64 cells of the 8 by 8 board, row by row |
| Agent.MinesweeperAI.MakeSafeMove | minesweeper.py:320-336 | a known safe cell not yet played, or `None` exactly when there is none; changes nothing |
| Agent.MinesweeperAI.MakeRandomMove | minesweeper.py:338-353 | a cell of the 8 by 8 board neither played nor a known mine, or `None` exactly when there is none; changes nothing |
| Game.IndexWrap | minesweeper.py:52-56 | a negative list index counts from the end, and equals the index modulo the length |
| Game.Minesweeper.constructor | minesweeper.py:11-35 | the game holds the given board, its mines are exactly the board's mine cells, and nothing is flagged |
| Game.Minesweeper.IsMine | minesweeper.py:52-56 | true exactly when the cell, with a negative coordinate wrapped, is one of the board's mines |
| Game.Minesweeper.NearbyMines | minesweeper.py:58-79 | the number of mines within one row and one column of the cell, excluding it; between 0 and 8. On an 8 by 8 board it counts the mines among the agent's neighbour cells |
| Game.Minesweeper.Won | minesweeper.py:81-85 | true exactly when the flagged cells are exactly the board's mine cells |
| Game.NearbyMinesOnAgentBoard | minesweeper.py:58-79 | on an 8 by 8 board, the mines counted around a cell are the mines among the agent's neighbours of it |
| Scenarios.ResolveMineSentence | test.py:25-35 | resolving `{(6,4)}=1` against `{(6,4),(6,3)}=1` makes `(6,4)` a mine and keeps `{(6,3)}=0` |
| Scenarios.UpdateFindsLastMine | test.py:37-44 | with `(4,2)` and `(4,3)` safe, the sentence `{(4,3),(4,2),(4,1)}=1` makes `(4,1)` a mine for any fuel of at least one |
| Scenarios.VisitRow4 | test.py:37-44 | the first visit of that sentence already makes `(4,1)` a mine |
| Scenarios.ResolveKnownSafesOfRow4 | minesweeper.py:265-266 | the resolve that the first visit performs leaves `{(4,1)}=1`, a mine |
| Scenarios.ResolveSubsetDerivesSafeSentence | test.py:65-78 | resolving `{(6,4)}=1` against the five-cell sentence with count 1 keeps `{(6,3),(7,4),(6,2),(7,2)}=0` |
| Scenarios.ResolveSubsetDerivesDifference | test.py:81-94 | resolving a two-cell subset keeps the three-cell difference with the difference of the counts |
| Scenarios.ResolveSupersetDerivesDifference | test.py:97-111 | resolving a superset keeps the difference, and the sentence derives nothing against its own copy |
| Scenarios.ResolveAgainstSafeSentence | test.py:114-126 | a known `{(6,4)}=0` inside the resolved sentence yields the four-cell difference with count 2 |
| Scenarios.ResolveSafeSentenceMarksCells | test.py:129-148 | a zero-count sentence makes its cells safe and takes `(6,4)` out of a known sentence |
| Scenarios.ResolveFullSentence | test.py:161-165 | a full-count sentence makes its cells mines and is kept |
| Scenarios.ResolveSecondFullSentence | test.py:166-168 | a second, disjoint full-count sentence adds its cell to the mines |
| Scenarios.ResolveFullSentences | test.py:161-168 | the two resolves leave exactly `{(5,4),(6,4),(6,3)}` as mines |
| Scenarios.ResolveUndecidedSentence | test.py:170-178 | a sentence that is neither all safe nor all mines marks nothing safe |
| Scenarios.ResolveDerivesMine | test.py:183-198 | a known safe cell taken off the resolved sentence leaves `{(5,0)}=1`, which is kept and makes `(5,0)` a mine |
| Scenarios.SentenceShapes | test.py:150-159 | `{(6,4)}=0` is a literal, the five-cell sentence is not, and the empty sentence is empty |

## Left out

- Random mine placement (minesweeper.py:26-32): the game is built from a given board. Its mine count is whatever that board holds, so the `mines` argument is not modelled.
- `random.choice` in `make_safe_move` and `make_random_move` (minesweeper.py:333, 350): the model picks an arbitrary member, so the contracts hold for every possible pick.
- `Minesweeper.print`, `MinesweeperAI.print_knowledge` and `Sentence.__str__`: console output only.
- `Sentence.__len__` and `Sentence.__eq__`: the model uses `|cells|` and datatype equality, which compares cells and count just as the source does.
- Agent.MinesweeperAI.UpdateWhatsKnown: the source loop has no bound and is not known to terminate. The model stops after `fuel` sentence visits and then returns `false`. It says nothing about what an unbounded run would do.
- Object identity: sentences are values. The source differs only when a caller appends a sentence object and then resolves that same object, as test.py:106-107 does. Marking then changes both copies in the source. In that test nothing is marked, so the outcome is the same.
- Sentences.Sentence.MarkMine and Sentences.Sentence.MarkSafe return the reduced sentence rather than changing it in place. The agent writes the result back into its list, which is where the source's in-place change is seen.
- Game.Minesweeper.IsMine: an index outside `-height .. height - 1` (or the same for columns) raises `IndexError` in the source. The model requires the index to be in range.
- `mines_found` is never updated by the modelled code. `won` reads it as it stands.
- The agent's `height` and `width` are stored but never used, as in the source. Its neighbourhood and move list are always 8 by 8.
- Soundness of the whole knowledge base with respect to a hidden board is not modelled. The source never checks its inputs, and derived counts can be negative (minesweeper.py:217, 220). Soundness is proved only per sentence (`KnownMinesSound`, `KnownSafesSound`, `WithoutMinesSound`, `WithoutSafesSound`).
- test_makes_safe_move and test_random_move (test.py:46-62) are covered by the contracts of `MakeSafeMove` and `MakeRandomMove` and have no lemma of their own. The same holds for test_moves_made and test_mark_safe (test.py:12-23) and the contract of `AddKnowledge`.
