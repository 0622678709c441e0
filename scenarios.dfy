/** The behaviour the repository's unit tests expect, stated as lemmas about the
    knowledge-base functions. Each starts from a fresh agent whose fields the test
    has set by hand. */
module Scenarios {
  import opened Grid
  import opened Sentences
  import opened Knowledge

  /** A fresh agent that has been handed the sentences `ks` */
  function Given(ks: seq<Sentence>): KB
  {
    KB({}, {}, ks)
  }

  /** A known sentence whose cells strictly contain the resolved one's yields the
      difference with a count of zero, which is kept in the knowledge */
  lemma ResolveSubsetDerivesSafeSentence()
    ensures Sentence({(6, 3), (7, 4), (6, 2), (7, 2)}, 0)
      in Resolve(Given([Sentence({(6, 4), (6, 3), (7, 4), (6, 2), (7, 2)}, 1)]), Sentence({(6, 4)}, 1)).knowledge
  {
    var k := Sentence({(6, 4), (6, 3), (7, 4), (6, 2), (7, 2)}, 1);
    var s := Sentence({(6, 4)}, 1);
    var d := Sentence({(6, 3), (7, 4), (6, 2), (7, 2)}, 0);
    assert s.cells < k.cells by {
      assert (6, 3) in k.cells - s.cells;
    }
    assert k.cells - s.cells == d.cells;
    assert Derive(s, k) == [d];
    var kb := Given([k]);
    assert Candidates(kb, s) == [s, d];
    assert [s, d][..1] == [s];
    var kb1 := AbsorbAll(kb, [s]);
    assert Resolve(kb, s) == Absorb(kb1, d);
    assert (6, 3) in d.cells;
  }

  /** A known sentence whose cells strictly contain the resolved one's yields the
      difference of cells and of counts, which is kept in the knowledge */
  lemma ResolveSubsetDerivesDifference()
    ensures Sentence({(7, 4), (6, 2), (7, 2)}, 1)
      in Resolve(Given([Sentence({(6, 4), (6, 3), (7, 4), (6, 2), (7, 2)}, 2)]), Sentence({(6, 4), (6, 3)}, 1)).knowledge
  {
    var k := Sentence({(6, 4), (6, 3), (7, 4), (6, 2), (7, 2)}, 2);
    var s := Sentence({(6, 4), (6, 3)}, 1);
    var d := Sentence({(7, 4), (6, 2), (7, 2)}, 1);
    assert s.cells < k.cells by {
      assert (7, 4) in k.cells - s.cells;
    }
    assert k.cells - s.cells == d.cells;
    assert Derive(s, k) == [d];
    var kb := Given([k]);
    assert Candidates(kb, s) == [s, d];
    assert [s, d][..1] == [s];
    assert Resolve(kb, s) == Absorb(AbsorbAll(kb, [s]), d);
    assert (7, 4) in d.cells;
  }

  /** A known sentence whose cells are strictly inside the resolved one's yields the
      difference the other way round; the resolved sentence itself, already in the
      knowledge, derives nothing against itself */
  lemma ResolveSupersetDerivesDifference()
    ensures var k := Sentence({(6, 4), (6, 3)}, 1);
      var s := Sentence({(6, 4), (6, 3), (7, 4), (6, 2), (7, 2)}, 2);
      Sentence({(7, 4), (6, 2), (7, 2)}, 1) in Resolve(Given([k, s]), s).knowledge
  {
    var k := Sentence({(6, 4), (6, 3)}, 1);
    var s := Sentence({(6, 4), (6, 3), (7, 4), (6, 2), (7, 2)}, 2);
    var d := Sentence({(7, 4), (6, 2), (7, 2)}, 1);
    assert k.cells < s.cells by {
      assert (7, 4) in s.cells - k.cells;
    }
    assert s.cells - k.cells == d.cells;
    assert Derive(s, k) == [d];
    assert Derive(s, s) == [];
    assert [k, s][..1] == [k];
    assert Derivations(s, [k, s]) == [d];
    var kb := Given([k, s]);
    assert Candidates(kb, s) == [s, d];
    assert [s, d][..1] == [s];
    assert Resolve(kb, s) == Absorb(AbsorbAll(kb, [s]), d);
    assert (7, 4) in d.cells;
  }

  /** A known zero-count sentence inside the resolved one is taken off it, count and
      all */
  lemma ResolveAgainstSafeSentence()
    ensures Sentence({(6, 3), (7, 4), (6, 2), (7, 2)}, 2)
      in Resolve(Given([Sentence({(6, 4)}, 0)]), Sentence({(6, 4), (6, 3), (7, 4), (6, 2), (7, 2)}, 2)).knowledge
  {
    var k := Sentence({(6, 4)}, 0);
    var s := Sentence({(6, 4), (6, 3), (7, 4), (6, 2), (7, 2)}, 2);
    var d := Sentence({(6, 3), (7, 4), (6, 2), (7, 2)}, 2);
    assert k.cells < s.cells by {
      assert (6, 3) in s.cells - k.cells;
    }
    assert s.cells - k.cells == d.cells;
    assert Derive(s, k) == [d];
    var kb := Given([k]);
    assert Candidates(kb, s) == [s, d];
    assert [s, d][..1] == [s];
    assert Resolve(kb, s) == Absorb(AbsorbAll(kb, [s]), d);
    assert (6, 3) in d.cells;
  }

  /** A zero-count sentence marks all its cells safe, which takes them out of the
      sentences already known */
  lemma ResolveSafeSentenceMarksCells()
    ensures var r := Resolve(Given([Sentence({(6, 4), (5, 4), (5, 3)}, 2)]), Sentence({(6, 4), (6, 3), (7, 4)}, 0));
      (6, 4) in r.safes && (6, 3) in r.safes && (7, 4) in r.safes
      && Sentence({(5, 4), (5, 3)}, 2) in r.knowledge
  {
    var k := Sentence({(6, 4), (5, 4), (5, 3)}, 2);
    var s := Sentence({(6, 4), (6, 3), (7, 4)}, 0);
    assert (5, 4) in k.cells - s.cells && (6, 3) in s.cells - k.cells;
    assert Derive(s, k) == [];
    var kb := Given([k]);
    assert Candidates(kb, s) == [s];
    assert [s][..0] == [];
    var r := Resolve(kb, s);
    assert AbsorbAll(kb, []) == kb;
    assert r == Absorb(kb, s);
    assert (6, 4) in s.cells;
    assert k.cells - s.cells == {(5, 4), (5, 3)};
    assert r.knowledge[0] == Sentence({(5, 4), (5, 3)}, 2);
  }

  /** A one-cell sentence with a count of one is a mine; what it leaves of a known
      sentence is kept with a count of zero */
  lemma ResolveMineSentence()
    ensures var r := Resolve(Given([Sentence({(6, 4), (6, 3)}, 1)]), Sentence({(6, 4)}, 1));
      Sentence({(6, 3)}, 0) in r.knowledge && (6, 4) in r.mines
  {
    var k := Sentence({(6, 4), (6, 3)}, 1);
    var s := Sentence({(6, 4)}, 1);
    var d := Sentence({(6, 3)}, 0);
    assert s.cells < k.cells by {
      assert (6, 3) in k.cells - s.cells;
    }
    assert k.cells - s.cells == d.cells;
    assert Derive(s, k) == [d];
    var kb := Given([k]);
    assert Candidates(kb, s) == [s, d];
    assert [s, d][..1] == [s];
    assert [s][..0] == [];
    var kb1 := AbsorbAll(kb, [s]);
    assert AbsorbAll(kb, []) == kb;
    assert kb1 == Absorb(kb, s);
    assert (6, 4) in kb1.mines;
    assert Resolve(kb, s) == Absorb(kb1, d);
    assert (6, 3) in d.cells;
  }

  /** A sentence whose count equals its size makes all its cells mines, and is kept */
  lemma ResolveFullSentence()
    ensures var s := Sentence({(6, 4), (6, 3)}, 2);
      Resolve(Given([]), s) == KB(s.cells, {}, [s])
  {
    var s := Sentence({(6, 4), (6, 3)}, 2);
    assert Candidates(Given([]), s) == [s];
    assert [s][..0] == [];
    assert AbsorbAll(Given([]), []) == Given([]);
    assert Resolve(Given([]), s) == Absorb(Given([]), s);
  }

  /** A second full-count sentence, disjoint from the first, adds its cell to the
      mines */
  lemma ResolveSecondFullSentence()
    ensures var s1 := Sentence({(6, 4), (6, 3)}, 2);
      Resolve(KB(s1.cells, {}, [s1]), Sentence({(5, 4)}, 1)).mines == {(5, 4), (6, 4), (6, 3)}
  {
    var s1 := Sentence({(6, 4), (6, 3)}, 2);
    var s2 := Sentence({(5, 4)}, 1);
    var kb1 := KB(s1.cells, {}, [s1]);
    assert (6, 4) in s1.cells - s2.cells && (5, 4) in s2.cells - s1.cells;
    assert Derive(s2, s1) == [];
    assert Candidates(kb1, s2) == [s2];
    assert [s2][..0] == [];
    assert AbsorbAll(kb1, []) == kb1;
    assert Resolve(kb1, s2) == Absorb(kb1, s2);
  }

  /** Two sentences whose counts equal their sizes make all their cells mines */
  lemma ResolveFullSentences()
    ensures Resolve(Resolve(Given([]), Sentence({(6, 4), (6, 3)}, 2)), Sentence({(5, 4)}, 1)).mines
      == {(5, 4), (6, 4), (6, 3)}
  {
    ResolveFullSentence();
    ResolveSecondFullSentence();
  }

  /** A sentence that is neither all safe nor all mines marks nothing safe */
  lemma ResolveUndecidedSentence()
    ensures Resolve(Given([]), Sentence({(6, 4), (6, 3)}, 1)).safes == {}
  {
    var s := Sentence({(6, 4), (6, 3)}, 1);
    assert Candidates(Given([]), s) == [s];
    assert [s][..0] == [];
    assert Resolve(Given([]), s) == Absorb(Given([]), s);
  }

  /** A known safe cell taken off the resolved sentence leaves a one-cell sentence
      with a count of one, which makes that cell a mine */
  lemma ResolveDerivesMine()
    ensures var r := Resolve(Given([Sentence({(6, 4)}, 0)]), Sentence({(6, 4), (5, 0)}, 1));
      Sentence({(5, 0)}, 1) in r.knowledge && (5, 0) in r.mines
  {
    var k := Sentence({(6, 4)}, 0);
    var s := Sentence({(6, 4), (5, 0)}, 1);
    var d := Sentence({(5, 0)}, 1);
    assert k.cells < s.cells by {
      assert (5, 0) in s.cells - k.cells;
    }
    assert s.cells - k.cells == d.cells;
    assert Derive(s, k) == [d];
    var kb := Given([k]);
    assert Candidates(kb, s) == [s, d];
    assert [s, d][..1] == [s];
    var kb1 := AbsorbAll(kb, [s]);
    assert Resolve(kb, s) == Absorb(kb1, d);
    assert (5, 0) in d.cells && |d.cells| == 1;
  }

  /** The three-cell sentence of the next lemma, with a count of one */
  function Row4(): Sentence
  {
    Sentence({(4, 3), (4, 2), (4, 1)}, 1)
  }

  /** Resolving the zero-count sentence of two known safe cells against the
      three-cell sentence leaves the third cell alone with a count of one: a mine */
  lemma ResolveKnownSafesOfRow4(safes: set<Cell>)
    ensures (4, 1) in Resolve(KB({}, safes, [Row4()]), Sentence({(4, 3), (4, 2)}, 0)).mines
  {
    var k := Row4();
    var kb := KB({}, safes, [k]);
    var t := Sentence({(4, 3), (4, 2)}, 0);
    var d := Sentence({(4, 1)}, 1);
    assert t.cells < k.cells by {
      assert (4, 1) in k.cells - t.cells;
    }
    assert k.cells - t.cells == d.cells;
    assert Derive(t, k) == [d];
    assert Candidates(kb, t) == [t, d];
    assert [t, d][..1] == [t];
    var kb1 := AbsorbAll(kb, [t]);
    assert Resolve(kb, t) == Absorb(kb1, d);
    assert (4, 1) in d.cells && |d.cells| == 1;
  }

  /** The first visit of the three-cell sentence, with two of its cells known safe,
      makes the third a mine */
  lemma VisitRow4(safes: set<Cell>)
    requires (4, 2) in safes && (4, 3) in safes && (4, 1) !in safes
    ensures (4, 1) in Visit(KB({}, safes, [Row4()]), 0).0.mines
  {
    var k := Row4();
    var kb := KB({}, safes, [k]);
    assert |k.cells| == 3;
    assert k.cells * safes == {(4, 3), (4, 2)} by {
      forall x
        ensures x in k.cells * safes <==> x in {(4, 3), (4, 2)}
      {
      }
    }
    assert (k.cells - safes) * kb.mines == {};
    ResolveKnownSafesOfRow4(safes);
    assert Visit(kb, 0) == UseKnownCells(kb, k);
  }

  /** With two of its three cells known safe, a sentence with a count of one makes
      the third a mine at its first visit, whatever the fuel */
  lemma UpdateFindsLastMine(safes: set<Cell>, fuel: nat)
    requires (4, 2) in safes && (4, 3) in safes && (4, 1) !in safes
    requires fuel >= 1
    ensures (4, 1) in UpdateWhatsKnown(KB({}, safes, [Row4()]), fuel).0.mines
  {
    VisitRow4(safes);
    UpdateKeepsFirstVisit(KB({}, safes, [Row4()]), fuel);
  }

  /** The sentence helpers on the examples of the tests */
  lemma SentenceShapes()
    ensures Sentence({(6, 4)}, 0).IsLiteral()
    ensures !Sentence({(6, 4), (6, 3), (7, 4), (6, 2), (7, 2)}, 2).IsLiteral()
    ensures Sentence({}, 0).IsEmptySet()
  {
    assert (6, 3) in Sentence({(6, 4), (6, 3), (7, 4), (6, 2), (7, 2)}, 2).cells - {(6, 4)};
  }
}
