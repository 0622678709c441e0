/** The agent's knowledge base as a value, and the effect of each of its operations on
    that value. The agent class (module Agent) is proved to change its fields exactly
    as these functions say. */
module Knowledge {
  import opened Grid
  import opened Sentences

  /** The cells known to be mines, the cells known to be safe, and the list of
      sentences known to be true, in the order they were added */
  datatype KB = KB(mines: set<Cell>, safes: set<Cell>, knowledge: seq<Sentence>)

  // ---------------------------------------------------------------------------
  // Marking cells

  /** Every sentence of `ks`, with the cells of `xs` marked as mines */
  function ReduceMines(ks: seq<Sentence>, xs: set<Cell>): seq<Sentence>
  {
    seq(|ks|, i requires 0 <= i < |ks| => ks[i].WithoutMines(xs))
  }

  /** Every sentence of `ks`, with the cells of `xs` marked as safe */
  function ReduceSafes(ks: seq<Sentence>, xs: set<Cell>): seq<Sentence>
  {
    seq(|ks|, i requires 0 <= i < |ks| => ks[i].WithoutSafes(xs))
  }

  /** The knowledge base once every cell of `xs` has been marked a mine (one
      `mark_mine` call per cell, in any order) */
  function MarkMines(kb: KB, xs: set<Cell>): (r: KB)
    ensures r.mines == kb.mines + xs && r.safes == kb.safes
    ensures |r.knowledge| == |kb.knowledge|
    ensures forall i :: 0 <= i < |r.knowledge| ==> r.knowledge[i].cells == kb.knowledge[i].cells - xs
    ensures forall i :: 0 <= i < |r.knowledge| ==>
      r.knowledge[i].count == kb.knowledge[i].count - |kb.knowledge[i].cells * xs|
    ensures forall i :: 0 <= i < |r.knowledge| && kb.knowledge[i].cells !! xs ==> r.knowledge[i] == kb.knowledge[i]
  {
    KB(kb.mines + xs, kb.safes, ReduceMines(kb.knowledge, xs))
  }

  /** The knowledge base once every cell of `xs` has been marked safe (one
      `mark_safe` call per cell, in any order) */
  function MarkSafes(kb: KB, xs: set<Cell>): (r: KB)
    ensures r.safes == kb.safes + xs && r.mines == kb.mines
    ensures |r.knowledge| == |kb.knowledge|
    ensures forall i :: 0 <= i < |r.knowledge| ==>
      r.knowledge[i].cells == kb.knowledge[i].cells - xs && r.knowledge[i].count == kb.knowledge[i].count
  {
    KB(kb.mines, kb.safes + xs, ReduceSafes(kb.knowledge, xs))
  }

  /** A list whose every sentence has had the cells of `xs` marked as mines, one by
      one, is the knowledge of MarkMines, and no sentence of it mentions them */
  lemma MarkMinesPointwise(kb: KB, xs: set<Cell>, ks: seq<Sentence>)
    requires |ks| == |kb.knowledge|
    requires forall j :: 0 <= j < |ks| ==> ks[j] == kb.knowledge[j].WithoutMines(xs)
    ensures MarkMines(kb, xs) == KB(kb.mines + xs, kb.safes, ks)
    ensures forall s :: s in ks ==> s.cells !! xs
  {
    assert ks == ReduceMines(kb.knowledge, xs);
  }

  /** The same for cells marked safe */
  lemma MarkSafesPointwise(kb: KB, xs: set<Cell>, ks: seq<Sentence>)
    requires |ks| == |kb.knowledge|
    requires forall j :: 0 <= j < |ks| ==> ks[j] == kb.knowledge[j].WithoutSafes(xs)
    ensures MarkSafes(kb, xs) == KB(kb.mines, kb.safes + xs, ks)
    ensures forall s :: s in ks ==> s.cells !! xs
  {
    assert ks == ReduceSafes(kb.knowledge, xs);
  }

  lemma MarkMinesNone(kb: KB)
    ensures MarkMines(kb, {}) == kb
  {
    forall i | 0 <= i < |kb.knowledge|
      ensures kb.knowledge[i].WithoutMines({}) == kb.knowledge[i]
    {
      assert kb.knowledge[i].cells * {} == {};
    }
    assert ReduceMines(kb.knowledge, {}) == kb.knowledge;
  }

  lemma MarkSafesNone(kb: KB)
    ensures MarkSafes(kb, {}) == kb
  {
    forall s: Sentence
      ensures s.WithoutSafes({}) == s
    {
      assert s.cells - {} == s.cells;
    }
    assert ReduceSafes(kb.knowledge, {}) == kb.knowledge;
  }

  /** Marking the mines of `a`, then those of `b`, is marking those of `a + b` */
  lemma {:induction false} MarkMinesCompose(kb: KB, a: set<Cell>, b: set<Cell>)
    ensures MarkMines(MarkMines(kb, a), b) == MarkMines(kb, a + b)
  {
    var l := MarkMines(MarkMines(kb, a), b).knowledge;
    var r := MarkMines(kb, a + b).knowledge;
    forall i | 0 <= i < |l|
      ensures l[i] == r[i]
    {
      WithoutMinesCompose(kb.knowledge[i], a, b);
    }
  }

  /** Marking the safe cells of `a`, then those of `b`, is marking those of `a + b` */
  lemma {:induction false} MarkSafesCompose(kb: KB, a: set<Cell>, b: set<Cell>)
    ensures MarkSafes(MarkSafes(kb, a), b) == MarkSafes(kb, a + b)
  {
    var l := MarkSafes(MarkSafes(kb, a), b).knowledge;
    var r := MarkSafes(kb, a + b).knowledge;
    forall i | 0 <= i < |l|
      ensures l[i] == r[i]
    {
      WithoutSafesCompose(kb.knowledge[i], a, b);
    }
  }

  /** A second `mark_mine` of the same cells changes nothing */
  lemma MarkMinesIdempotent(kb: KB, xs: set<Cell>)
    ensures MarkMines(MarkMines(kb, xs), xs) == MarkMines(kb, xs)
  {
    MarkMinesCompose(kb, xs, xs);
    assert xs + xs == xs;
  }

  /** A second `mark_safe` of the same cells changes nothing */
  lemma MarkSafesIdempotent(kb: KB, xs: set<Cell>)
    ensures MarkSafes(MarkSafes(kb, xs), xs) == MarkSafes(kb, xs)
  {
    MarkSafesCompose(kb, xs, xs);
    assert xs + xs == xs;
  }

  // ---------------------------------------------------------------------------
  // Resolution

  /** What resolving `s` against the known sentence `k` derives: when the cells of
      one are a strict subset of the other's, the difference of the larger and the
      smaller, with the difference of their counts */
  function Derive(s: Sentence, k: Sentence): (r: seq<Sentence>)
    ensures |r| <= 1
    ensures r != [] <==> s.cells < k.cells || k.cells < s.cells
    ensures s.cells < k.cells ==> r == [Sentence(k.cells - s.cells, k.count - s.count)]
    ensures k.cells < s.cells ==> r == [Sentence(s.cells - k.cells, s.count - k.count)]
    ensures forall d :: d in r ==> d.cells != {}
  {
    if s.cells != k.cells then
      if s.cells <= k.cells then
        StrictSubsetLeavesCells(s.cells, k.cells);
        [Sentence(k.cells - s.cells, k.count - s.count)]
      else if s.cells >= k.cells then
        StrictSubsetLeavesCells(k.cells, s.cells);
        [Sentence(s.cells - k.cells, s.count - k.count)]
      else []
    else []
  }

  lemma StrictSubsetLeavesCells(a: set<Cell>, b: set<Cell>)
    requires a < b
    ensures b - a != {}
  {
    if b - a == {} {
      forall x | x in b
        ensures x in a
      {
        assert x !in b - a;
      }
    }
  }

  /** What resolving `s` against each sentence of `ks` derives, in the order of `ks` */
  function Derivations(s: Sentence, ks: seq<Sentence>): (r: seq<Sentence>)
    ensures |r| <= |ks|
    ensures forall d :: d in r ==> d.cells != {}
    decreases |ks|
  {
    if ks == [] then [] else Derivations(s, ks[..|ks| - 1]) + Derive(s, ks[|ks| - 1])
  }

  /** A sentence is derived exactly when some known sentence derives it */
  lemma {:induction false} DerivationsExact(s: Sentence, ks: seq<Sentence>, d: Sentence)
    ensures d in Derivations(s, ks) <==> exists k :: k in ks && d in Derive(s, k)
    decreases |ks|
  {
    if ks != [] {
      var front, last := ks[..|ks| - 1], ks[|ks| - 1];
      assert ks == front + [last];
      DerivationsExact(s, front, d);
      if d in Derivations(s, ks) && d !in Derivations(s, front) {
        assert d in Derive(s, last);
      }
      if exists k :: k in ks && d in Derive(s, k) {
        var k :| k in ks && d in Derive(s, k);
        if k != last {
          assert k in front;
        }
      }
    }
  }

  /** The sentences resolve works through: `s` first, then what it derives against
      the knowledge as it stood when resolve was called */
  function Candidates(kb: KB, s: Sentence): seq<Sentence>
  {
    [s] + Derivations(s, kb.knowledge)
  }

  /** The candidates of resolve(s) are `s` first, then at most one non-empty
      sentence per known sentence, each derived from `s` and a known sentence, and
      every such derivation is among them */
  lemma CandidatesExact(kb: KB, s: Sentence)
    ensures var r := Candidates(kb, s);
      1 <= |r| <= |kb.knowledge| + 1 && r[0] == s
      && (forall i :: 1 <= i < |r| ==> r[i].cells != {})
      && forall d :: d in r[1..] <==> exists k :: k in kb.knowledge && d in Derive(s, k)
  {
    var r := Candidates(kb, s);
    assert r[1..] == Derivations(s, kb.knowledge);
    forall d
      ensures d in r[1..] <==> exists k :: k in kb.knowledge && d in Derive(s, k)
    {
      DerivationsExact(s, kb.knowledge, d);
    }
  }

  /** One candidate handled by resolve: an empty one is dropped; otherwise a count of
      zero marks all its cells safe, a count equal to its size marks them all mines,
      and then, in every case, the candidate is appended as it stands */
  function Absorb(kb: KB, c: Sentence): (r: KB)
    ensures c.cells == {} ==> r == kb
    ensures c.cells != {} ==> |r.knowledge| == |kb.knowledge| + 1 && r.knowledge[|kb.knowledge|] == c
    ensures c.cells != {} && c.count == 0 ==> r.safes == kb.safes + c.cells && r.mines == kb.mines
    ensures c.cells != {} && c.count != 0 && c.count == |c.cells| ==> r.mines == kb.mines + c.cells && r.safes == kb.safes
    ensures c.cells != {} && c.count != 0 && c.count != |c.cells| ==> r == kb.(knowledge := kb.knowledge + [c])
  {
    if c.cells == {} then kb
    else
      var marked :=
        if c.count == 0 then MarkSafes(kb, c.cells)
        else if |c.cells| == c.count then MarkMines(kb, c.cells)
        else kb;
      marked.(knowledge := marked.knowledge + [c])
  }

  /** The candidates `cs` handled one after the other */
  function AbsorbAll(kb: KB, cs: seq<Sentence>): (r: KB)
    ensures kb.mines <= r.mines && kb.safes <= r.safes
    ensures |kb.knowledge| <= |r.knowledge|
    decreases |cs|
  {
    if cs == [] then kb else Absorb(AbsorbAll(kb, cs[..|cs| - 1]), cs[|cs| - 1])
  }

  /** The knowledge base after `resolve(s)` */
  function Resolve(kb: KB, s: Sentence): (r: KB)
    ensures kb.mines <= r.mines && kb.safes <= r.safes
    ensures |kb.knowledge| <= |r.knowledge|
  {
    AbsorbAll(kb, Candidates(kb, s))
  }

  /** The cells of the non-empty candidates with a count of zero */
  function SafeConclusions(cs: seq<Sentence>): set<Cell>
  {
    set c, x | c in cs && c.cells != {} && c.count == 0 && x in c.cells :: x
  }

  /** The cells of the non-empty candidates whose count equals their size */
  function MineConclusions(cs: seq<Sentence>): set<Cell>
  {
    set c, x | c in cs && c.cells != {} && c.count != 0 && c.count == |c.cells| && x in c.cells :: x
  }

  /** The number of non-empty candidates */
  function NonEmptyCount(cs: seq<Sentence>): nat
  {
    if cs == [] then 0 else NonEmptyCount(cs[..|cs| - 1]) + (if cs[|cs| - 1].cells == {} then 0 else 1)
  }

  /** The safe cells concluded from `cs` are those concluded from all but its last
      candidate, plus the cells of the last one when its count is zero */
  lemma SafeConclusionsLast(cs: seq<Sentence>)
    requires cs != []
    ensures var last := cs[|cs| - 1];
      SafeConclusions(cs) == SafeConclusions(cs[..|cs| - 1]) + (if last.cells != {} && last.count == 0 then last.cells else {})
  {
    var front, last := cs[..|cs| - 1], cs[|cs| - 1];
    assert cs == front + [last];
    forall x | x in SafeConclusions(cs)
      ensures x in SafeConclusions(front) + (if last.cells != {} && last.count == 0 then last.cells else {})
    {
      var c :| c in cs && c.cells != {} && c.count == 0 && x in c.cells;
      if c != last {
        assert c in front;
      }
    }
  }

  /** The mines concluded from `cs` are those concluded from all but its last
      candidate, plus the cells of the last one when its count equals its size */
  lemma MineConclusionsLast(cs: seq<Sentence>)
    requires cs != []
    ensures var last := cs[|cs| - 1];
      MineConclusions(cs) == MineConclusions(cs[..|cs| - 1]) + (if last.cells != {} && last.count != 0 && last.count == |last.cells| then last.cells else {})
  {
    var front, last := cs[..|cs| - 1], cs[|cs| - 1];
    assert cs == front + [last];
    forall x | x in MineConclusions(cs)
      ensures x in MineConclusions(front) + (if last.cells != {} && last.count != 0 && last.count == |last.cells| then last.cells else {})
    {
      var c :| c in cs && c.cells != {} && c.count != 0 && c.count == |c.cells| && x in c.cells;
      if c != last {
        assert c in front;
      }
    }
  }

  /** Handling candidates adds exactly the cells of the zero-count ones to the safe
      cells, exactly the cells of the full-count ones to the mines, and appends one
      sentence per non-empty candidate */
  lemma {:induction false} AbsorbAllConclusions(kb: KB, cs: seq<Sentence>)
    ensures AbsorbAll(kb, cs).safes == kb.safes + SafeConclusions(cs)
    ensures AbsorbAll(kb, cs).mines == kb.mines + MineConclusions(cs)
    ensures |AbsorbAll(kb, cs).knowledge| == |kb.knowledge| + NonEmptyCount(cs)
    decreases |cs|
  {
    if cs != [] {
      var front, last := cs[..|cs| - 1], cs[|cs| - 1];
      var prev := AbsorbAll(kb, front);
      assert AbsorbAll(kb, cs) == Absorb(prev, last);
      AbsorbAllConclusions(kb, front);
      SafeConclusionsLast(cs);
      MineConclusionsLast(cs);
      assert NonEmptyCount(cs) == NonEmptyCount(front) + (if last.cells == {} then 0 else 1);
    }
  }

  /** resolve(s) marks as safe exactly the cells of its zero-count candidates and as
      mines exactly the cells of its full-count candidates, and appends every
      non-empty candidate */
  lemma ResolveConclusions(kb: KB, s: Sentence)
    ensures Resolve(kb, s).safes == kb.safes + SafeConclusions(Candidates(kb, s))
    ensures Resolve(kb, s).mines == kb.mines + MineConclusions(Candidates(kb, s))
    ensures |Resolve(kb, s).knowledge| == |kb.knowledge| + NonEmptyCount(Candidates(kb, s))
  {
    AbsorbAllConclusions(kb, Candidates(kb, s));
  }

  // ---------------------------------------------------------------------------
  // Clean-up: update_whats_known

  /** The position of the first sentence equal to `x` */
  function IndexOf(ks: seq<Sentence>, x: Sentence): (p: nat)
    requires x in ks
    ensures p < |ks| && ks[p] == x
    ensures forall q :: 0 <= q < p ==> ks[q] != x
  {
    if ks[0] == x then 0 else 1 + IndexOf(ks[1..], x)
  }

  /** `ks` without its first sentence equal to `x` (a list's `remove`) */
  function RemoveFirst(ks: seq<Sentence>, x: Sentence): (r: seq<Sentence>)
    requires x in ks
    ensures |r| == |ks| - 1
    ensures forall y :: y in r ==> y in ks
    ensures multiset(r) == multiset(ks) - multiset{x}
    ensures r[..IndexOf(ks, x)] == ks[..IndexOf(ks, x)]
    ensures forall q :: IndexOf(ks, x) <= q < |r| ==> r[q] == ks[q + 1]
  {
    var p := IndexOf(ks, x);
    DropAt(ks, p);
    ks[..p] + ks[p + 1..]
  }

  /** Dropping the sentence at position `p` removes one copy of it from the multiset */
  lemma DropAt(ks: seq<Sentence>, p: nat)
    requires p < |ks|
    ensures multiset(ks[..p] + ks[p + 1..]) == multiset(ks) - multiset{ks[p]}
  {
    assert ks == ks[..p] + [ks[p]] + ks[p + 1..];
  }

  /** The known cells of `s` split in two: those known to be safe, and those known to
      be mines but not safe */
  function KnownParts(kb: KB, s: Sentence): (r: (set<Cell>, set<Cell>))
    ensures r.0 <= s.cells && r.0 <= kb.safes
    ensures r.1 <= s.cells && r.1 <= kb.mines && r.0 !! r.1
    ensures forall c :: c in s.cells && (c in kb.safes || c in kb.mines) <==> c in r.0 + r.1
  {
    (s.cells * kb.safes, (s.cells - kb.safes) * kb.mines)
  }

  /** The third case of a turn: a non-empty sentence that settles nothing by itself
      is resolved against the zero-count sentence of its known safe cells, then
      against the full-count sentence of its known mines; the flag tells whether
      either resolve happened */
  function UseKnownCells(kb: KB, s: Sentence): (r: (KB, bool))
    ensures kb.mines <= r.0.mines && kb.safes <= r.0.safes
  {
    var parts := KnownParts(kb, s);
    var newSafes, newMines := parts.0, parts.1;
    var kb1 := if |newSafes| > 0 then Resolve(kb, Sentence(newSafes, 0)) else kb;
    var kb2 := if |newMines| > 0 then Resolve(kb1, Sentence(newMines, |newMines|)) else kb1;
    (kb2, |newSafes| > 0 || |newMines| > 0)
  }

  /** `marked` without its first sentence equal to the one at position `i` */
  function RemoveVisited(marked: KB, i: nat): (r: KB)
    requires i < |marked.knowledge|
    ensures r.mines == marked.mines && r.safes == marked.safes
    ensures |r.knowledge| == |marked.knowledge| - 1
  {
    marked.(knowledge := RemoveFirst(marked.knowledge, marked.knowledge[i]))
  }

  /** One turn of update_whats_known's inner loop, on the sentence at position `i`;
      the flag tells whether the turn sets `done` */
  function Visit(kb: KB, i: nat): (r: (KB, bool))
    requires i < |kb.knowledge|
    ensures kb.mines <= r.0.mines && kb.safes <= r.0.safes
  {
    var s := kb.knowledge[i];
    if |s.KnownSafes()| > 0 then
      (RemoveVisited(MarkSafes(kb, s.cells), i), true)
    else if |s.KnownMines()| > 0 then
      (RemoveVisited(MarkMines(kb, s.cells), i), true)
    else if |s.cells| > 0 then
      UseKnownCells(kb, s)
    else
      (RemoveVisited(kb, i), false)
  }

  /** update_whats_known from inside its inner loop, about to look at position `i`
      with the flag `done`, allowed `fuel` more turns of the inner loop; the flag of
      the result is false when the fuel ran out first */
  function Run(kb: KB, i: nat, done: bool, fuel: nat): (r: (KB, bool))
    ensures kb.mines <= r.0.mines && kb.safes <= r.0.safes
    decreases fuel, if done then 1 else 0, 1
  {
    if i < |kb.knowledge| then TurnAt(kb, i, done, fuel)
    else if done then Run(kb, 0, false, fuel)
    else (kb, true)
  }

  /** Run at a position that holds a sentence: with fuel left, the sentence is
      visited and the loop moves on to the next position */
  function TurnAt(kb: KB, i: nat, done: bool, fuel: nat): (r: (KB, bool))
    requires i < |kb.knowledge|
    ensures kb.mines <= r.0.mines && kb.safes <= r.0.safes
    decreases fuel, if done then 1 else 0, 0
  {
    if fuel == 0 then (kb, false)
    else
      var next := Visit(kb, i);
      Run(next.0, i + 1, done || next.1, fuel - 1)
  }

  /** A turn of the inner loop, taken from the definition of Run */
  lemma RunVisit(before: KB, after: KB, i: nat, done: bool, changed: bool, fuel: nat)
    requires i < |before.knowledge|
    requires (after, changed) == Visit(before, i)
    ensures Run(before, i, done, fuel + 1) == Run(after, i + 1, done || changed, fuel)
  {
  }

  /** A turn with no fuel left, taken from the definition of Run */
  lemma RunOutOfFuel(kb: KB, i: nat, done: bool)
    requires i < |kb.knowledge|
    ensures Run(kb, i, done, 0) == (kb, false)
  {
  }

  /** The end of a pass, taken from the definition of Run */
  lemma RunEndOfPass(kb: KB, i: nat, done: bool, fuel: nat)
    requires |kb.knowledge| <= i
    ensures Run(kb, i, done, fuel) == if done then Run(kb, 0, false, fuel) else (kb, true)
  {
  }

  /** update_whats_known, allowed `fuel` turns of its inner loop in all */
  function UpdateWhatsKnown(kb: KB, fuel: nat): (r: (KB, bool))
    ensures kb.mines <= r.0.mines && kb.safes <= r.0.safes
  {
    Run(kb, 0, false, fuel)
  }

  /** What the first turn of update_whats_known concludes is never lost */
  lemma UpdateKeepsFirstVisit(kb: KB, fuel: nat)
    requires 0 < |kb.knowledge| && 1 <= fuel
    ensures Visit(kb, 0).0.mines <= UpdateWhatsKnown(kb, fuel).0.mines
    ensures Visit(kb, 0).0.safes <= UpdateWhatsKnown(kb, fuel).0.safes
  {
    var next := Visit(kb, 0);
    var left := fuel - 1;
    RunVisit(kb, next.0, 0, false, next.1, left);
    var last := Run(next.0, 1, next.1, left);
    assert UpdateWhatsKnown(kb, fuel) == Run(kb, 0, false, left + 1) == last;
  }

  /** add_knowledge(cell, count), minus the record of the move, which is kept outside
      the knowledge base */
  function AddKnowledge(kb: KB, cell: Cell, count: int, fuel: nat): (r: (KB, bool))
    ensures cell in r.0.safes
    ensures kb.mines <= r.0.mines && kb.safes <= r.0.safes
  {
    var marked := MarkSafes(kb, {cell});
    var resolved := Resolve(marked, Sentence(NeighbourSet(cell), count));
    UpdateWhatsKnown(resolved, fuel)
  }
}
