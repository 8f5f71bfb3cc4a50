/** The usual optional value: Python's `None` or a present value. */
module Wrappers {
  datatype Option<T> = None | Some(value: T)
}

/**
 * The puzzle the solver works on: slots ("variables") with a start cell, a
 * direction and a length, the overlaps between ordered pairs of slots, and
 * the vocabulary. Parsing the structure and word files and computing the
 * overlaps belong to `Crossword` in crossword.py, which is not part of this
 * model; its results are taken as given, under `WellFormed` below.
 */
module Puzzle {
  import opened Wrappers

  datatype Direction = Across | Down

  /** A word slot: start row `i`, start column `j`, direction and length. */
  datatype Variable = Variable(i: nat, j: nat, direction: Direction, length: nat)

  type Word = string

  /** Offsets `(i, j)`: letter `i` of the first slot is letter `j` of the second. */
  type Offsets = (nat, nat)

  datatype Crossword = Crossword(
    height: nat,
    width: nat,
    variables: set<Variable>,
    overlaps: map<(Variable, Variable), Option<Offsets>>,
    words: set<Word>)

  /** `crossword.overlaps[x, y]`; a pair outside the map reads as no overlap. */
  function Overlap(cw: Crossword, x: Variable, y: Variable): Option<Offsets>
  {
    if (x, y) in cw.overlaps then cw.overlaps[(x, y)] else None
  }

  /** `crossword.neighbors(x)`: the other slots that cross `x`. */
  function Neighbors(cw: Crossword, x: Variable): (r: set<Variable>)
    ensures x !in r && r <= cw.variables
  {
    set y | y in cw.variables && y != x && Overlap(cw, x, y).Some?
  }

  /** Over a well-formed puzzle, crossing is symmetric. */
  lemma NeighborsSymmetric(cw: Crossword, x: Variable, y: Variable)
    requires WellFormed(cw) && x in cw.variables && y in cw.variables
    ensures y in Neighbors(cw, x) <==> x in Neighbors(cw, y)
  {
    if y in Neighbors(cw, x) {
      assert Overlap(cw, y, x).Some?;
    }
    if x in Neighbors(cw, y) {
      assert Overlap(cw, x, y).Some?;
    }
  }

  /** `len(crossword.neighbors(x))`: how many slots cross x. */
  function Degree(cw: Crossword, x: Variable): nat
  {
    |Neighbors(cw, x)|
  }

  /**
   * What the solver assumes of the collaborator: every ordered pair of
   * distinct slots has an entry, the entry for (y, x) mirrors the one for
   * (x, y), and the offsets are letter positions of the two slots.
   */
  ghost predicate WellFormed(cw: Crossword)
  {
    && (forall x, y | x in cw.variables && y in cw.variables && x != y :: (x, y) in cw.overlaps)
    && (forall x, y | x in cw.variables && y in cw.variables && x != y && Overlap(cw, x, y).Some? ::
          Overlap(cw, y, x) == Some((Overlap(cw, x, y).value.1, Overlap(cw, x, y).value.0)))
    && (forall x, y | x in cw.variables && y in cw.variables && x != y && Overlap(cw, x, y).Some? ::
          Overlap(cw, x, y).value.0 < x.length && Overlap(cw, x, y).value.1 < y.length)
  }

  /** The offsets of an overlap are letter positions of its two slots. */
  lemma OverlapInBounds(cw: Crossword, x: Variable, y: Variable)
    requires WellFormed(cw) && x in cw.variables && y in cw.variables && x != y && Overlap(cw, x, y).Some?
    ensures Overlap(cw, x, y).value.0 < x.length && Overlap(cw, x, y).value.1 < y.length
  {
  }

  /** The grid cell (row, column) of letter `k` of slot `v`. */
  function Cell(v: Variable, k: nat): (nat, nat)
  {
    (v.i + (if v.direction == Down then k else 0), v.j + (if v.direction == Across then k else 0))
  }

  /**
   * The overlaps agree with the geometry: whenever letter `k1` of `x` and
   * letter `k2` of another slot `y` fall on the same cell, the overlap of
   * (x, y) is exactly `(k1, k2)`.
   */
  ghost predicate CellsMatchOverlaps(cw: Crossword)
  {
    forall x, y, k1: nat, k2: nat |
      x in cw.variables && y in cw.variables && x != y && k1 < x.length && k2 < y.length && Cell(x, k1) == Cell(y, k2) ::
      Overlap(cw, x, y) == Some((k1, k2))
  }
}
