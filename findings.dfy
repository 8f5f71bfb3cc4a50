/**
 * A two-slot puzzle on which `ac3`, seeded with one direction per pair as
 * `combinations(variables, 2)` does, reports success while a word with no
 * partner is still in a domain; seeding both directions removes it.
 *
 * Slot `Across2` runs across from (0, 0) for two letters; slot `Down3` runs
 * down from (0, 1) for three letters; they share cell (0, 1), which is
 * letter 1 of the first and letter 0 of the second. The vocabulary is
 * "ab", "bcd" and "xyz". "xyz" fits `Down3` by length but starts with 'x',
 * and the only two-letter word ends in 'b'.
 */
module Findings {
  import opened Wrappers
  import opened Puzzle
  import opened Csp
  import opened Arcs
  import opened Generate

  const Across2: Variable := Variable(0, 0, Across, 2)
  const Down3: Variable := Variable(0, 1, Down, 3)

  const TinyOverlaps: map<(Variable, Variable), Option<Offsets>> :=
    map[(Across2, Down3) := Some((1, 0)), (Down3, Across2) := Some((0, 1))]

  const Tiny: Crossword := Crossword(3, 2, {Across2, Down3}, TinyOverlaps, {"ab", "bcd", "xyz"})

  /** Two slots crossing at cell (0, 1) meet what the solver assumes of its input, whatever the words. */
  lemma TwoSlotsWellFormed(cw: Crossword)
    requires cw.variables == {Across2, Down3} && cw.overlaps == TinyOverlaps
    ensures WellFormed(cw)
  {
    assert Overlap(cw, Across2, Down3) == Some((1, 0));
    assert Overlap(cw, Down3, Across2) == Some((0, 1));
  }

  /** The overlaps of the two slots agree with their cells. */
  lemma TwoSlotsCellsMatch(cw: Crossword)
    requires cw.variables == {Across2, Down3} && cw.overlaps == TinyOverlaps
    ensures CellsMatchOverlaps(cw)
  {
    forall x, y, k1: nat, k2: nat |
      x in cw.variables && y in cw.variables && x != y && k1 < x.length && k2 < y.length && Cell(x, k1) == Cell(y, k2)
      ensures Overlap(cw, x, y) == Some((k1, k2))
    {
      if x == Across2 {
        assert Cell(x, k1) == (0, k1) && Cell(y, k2) == (k2, 1);
      } else {
        assert Cell(x, k1) == (k1, 1) && Cell(y, k2) == (0, k2);
      }
    }
  }

  /** "ab" across and "bcd" down. */
  const TinySolution: Bindings := map[Across2 := "ab", Down3 := "bcd"]

  /** The example has a solution, drawn from the domains node consistency leaves. */
  lemma TinySolved(d: Domains)
    requires d == map[Across2 := {"ab"}, Down3 := {"bcd", "xyz"}]
    ensures Solution(Tiny, TinySolution) && DrawnFrom(TinySolution, d)
  {
    assert Agree("ab", "bcd", (1, 0)) && Agree("bcd", "ab", (0, 1));
  }

  /** Builds the solver over the example, with the domains node-consistency leaves. */
  method NodeConsistentTiny() returns (creator: CrosswordCreator)
    ensures fresh(creator) && creator.crossword == Tiny && creator.Valid() && NodeConsistent(creator.domains)
    ensures creator.domains == map[Across2 := {"ab"}, Down3 := {"bcd", "xyz"}]
  {
    TwoSlotsWellFormed(Tiny);
    creator := new CrosswordCreator(Tiny);
    creator.EnforceNodeConsistency();
    assert creator.domains[Across2] == {"ab"};
    assert creator.domains[Down3] == {"bcd", "xyz"};
  }

  /**
   * As written: with `Across2` iterated first, `combinations` seeds only the
   * arc (Across2, Down3), which already holds, so `ac3` returns True at once;
   * yet revising the reverse arc (Down3, Across2) still removes "xyz".
   */
  method OneDirectionSeedLeavesStaleWord() returns (ok: bool, stale: bool)
    ensures ok && stale
  {
    var creator := NodeConsistentTiny();
    assert [Across2, Down3][1..] == [Down3] && [Down3][1..] == [];
    assert Combinations([Down3]) == [];
    assert Combinations([Across2, Down3]) == [(Across2, Down3)];
    assert Agree("ab", "bcd", (1, 0));
    assert AllConsistent(Tiny, creator.domains, [(Across2, Down3)]);
    ok := creator.AC3(Some(Combinations([Across2, Down3])));
    assert "xyz" !in Revised(Tiny, creator.domains, Down3, Across2);
    stale := creator.Revise(Down3, Across2);
  }

  /**
   * Corrected: seeding both directions of every pair, `ac3` still returns
   * True (the puzzle has the solution "ab"/"bcd"), and afterwards no arc has
   * anything left to remove.
   */
  method BothDirectionSeedLeavesNothing() returns (ok: bool, stale: bool)
    ensures ok && !stale
  {
    var creator := NodeConsistentTiny();
    TinySolved(creator.domains);
    ok := creator.AC3AllArcs();
    assert DrawnFrom(TinySolution, creator.domains);
    assert ok;
    ReviseNoChangeIffConsistent(Tiny, creator.domains, Down3, Across2);
    stale := creator.Revise(Down3, Across2);
  }
}
