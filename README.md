# Crossword generator: the constraint solver

`generate.py` fills a crossword grid with words from a vocabulary. It
treats the task as a constraint-satisfaction problem. Each word slot is a
variable. Its domain is the set of words it may still take. The
constraints are as follows:

- each slot holds a word of its own length;
- no word is used twice;
- two crossing slots agree on the letter of the cell they share.

`CrosswordCreator` runs the solver in four steps:

1. It starts with every slot's domain equal to the whole vocabulary.
2. It filters the domains by length (node consistency).
3. It prunes them with AC-3 (arc consistency).
4. It runs a backtracking search over a mutable assignment dictionary:
   - it picks the slot with the fewest remaining values, breaking ties by
     most neighbours;
   - it tries that slot's words, the least constraining first.

`letter_grid` turns an assignment into a grid of letters.

This project models that class in Dafny and proves the following:

- The domain filters remove exactly the words the source removes.
- AC-3:
  - terminates;
  - only shrinks domains;
  - never loses a word that some solution uses;
  - on success, leaves every seeded arc consistent;
  - changes nothing when the arcs it starts from are already consistent
    (for the default seeding this needs every arc, in both directions, to
    be consistent).
- `consistent` decides exactly the three constraints.
- The two heuristics meet their orderings.
- `backtrack`:
  - returns either the same dictionary, complete and extended only with
    domain words, or `None`; the result is a solution whenever the
    assignment it started from was consistent (a complete but inconsistent
    input comes back unchanged, as generate.py:233-234 does);
  - returns `None` only when no solution completes the assignment, and
    leaves the dictionary unchanged in that case.
- `solve`:
  - finds a solution drawn from the initial domains whenever one exists;
  - every result it returns is one.
- `letter_grid` writes every letter of a consistent assignment on its cell.
  It leaves a cell empty exactly when no word crosses that cell.

## Files and modules

- `puzzle.dfy`:
  - module `Wrappers`, holding `Option`;
  - module `Puzzle`:
    - slots (`Variable`) and the puzzle (`Crossword`), which holds the
      dimensions, the slots, the overlap map and the vocabulary;
    - `neighbors` and the cell of a letter;
    - `WellFormed`, which states what the solver assumes of the overlap map.
- `csp.dfy`, module `Csp`. It holds the definitions the solver is proved
  against:
  - node consistency, `Revised`, arc consistency;
  - `Consistent`, `Solution`, `Completion`;
  - the lemmas about revising one arc and about extending assignments.
- `arcs.dfy`, module `Arcs`:
  - `itertools.combinations(order, 2)` as `Combinations`;
  - the two-direction seeding `AllArcs`;
  - which pairs each of them contains.
- `ordering.dfy`, module `Ordering`: `sorted(..., key=...)`, as an
  insertion sort on a map of precomputed keys.
- `generate.dfy`, module `Generate`:
  - class `CrosswordCreator`, with fields `crossword` and `domains`, and one
    method per method of the source;
  - class `Assignment`, the dictionary `backtrack` mutates;
  - the loop invariants of `ac3`;
  - the value-ordering count `RuledOut`;
  - the functional specification `Paint` of `letter_grid`.
- `findings.dfy`, module `Findings`: a concrete two-slot puzzle that
  exhibits the finding below.

Python sets iterate in an order the program does not control. Where the
source iterates a set, the model makes an arbitrary choice (`:|`), so every
property holds for every iteration order. The model turns `list(set)` into
`Enumerate`, which returns the elements in some order. The same goes for
the insertion order of the assignment dictionary, which `letter_grid`
iterates: the model writes the words in an arbitrary order of the bound
slots, and `PaintConsistent` shows that for a consistent assignment the
order makes no difference.

The code and its docstrings disagree on how `ac3` seeds its arcs. The
default seeding is `combinations(variables, 2)`, which gives one direction
per pair. The docstring asks for "all arcs", which means both directions.
The model follows the code (`AC3`). The two-direction version is given
separately (`AC3AllArcs`), and the finding below exhibits the difference.

## Model

| member | source | states |
|---|---|---|
| `Generate.CrosswordCreator.constructor` | generate.py:9-17 | every slot's domain is the whole vocabulary and the store has one domain per slot |
| `Generate.Assignment.constructor` | generate.py:88 | the dictionary `backtrack` starts from is empty |
| `Generate.CrosswordCreator.EnforceNodeConsistency` | generate.py:90-98 | same slots; a word stays in a domain exactly when its length is the slot's length, so every domain is node-consistent and a subset of the old one |
| `Generate.CrosswordCreator.Revise` | generate.py:100-120 | the new domains are the old ones with x's domain replaced by `Revised` (the words with a partner in y's domain at the overlap); the result is True exactly when x's domain changed; with no overlap nothing changes and the result is False |
| `Csp.ReviseDropsExactlyUnsupported` | generate.py:114-119 | revising keeps a subset of x's domain, and a word is dropped exactly when no word of y agrees with it at the overlap |
| `Csp.ReviseNoChangeIffConsistent` | generate.py:106-120 | `revise` changes nothing if and only if the arc is already consistent |
| `Csp.ReviseMakesArcConsistent` | generate.py:100-104 | after revising (x, y) the arc (x, y) is consistent |
| `Csp.ReviseKeepsSolutions` | generate.py:114-119 | revising never removes a word used by a solution drawn from the current domains |
| `Csp.SolutionSupported` | generate.py:117 | in a solution, each slot's word has a partner in its neighbour's domain at the overlap |
| `Csp.ReviseKeepsReverseArc` | generate.py:114-119 | revising (x, y) keeps a consistent reverse arc (y, x) consistent |
| `Csp.KeepsSolutionsTransitive` | generate.py:137-146 | two steps that each keep every solution compose into one that keeps them |
| `Csp.DomainPairsShrink` | generate.py:139-140 | a revision that removes a word strictly shrinks the set of (slot, word) pairs, so the `ac3` loop terminates |
| `Generate.CrosswordCreator.AC3` | generate.py:122-146 | domains only shrink and stay node-consistent, and no solution drawn from them is lost; False implies some domain is empty; True with given arcs implies each given arc is consistent; True with the default seeding implies each pair is consistent in at least one direction; when the seeded arcs are already consistent the result is True and nothing changes |
| `Generate.CrosswordCreator.RunWorklist` | generate.py:137-146 | the loop: the same guarantees for an explicit initial queue of arcs |
| `Generate.CrosswordCreator.ReviseFront` | generate.py:138-145 | one turn of the loop keeps the invariant (every seeded arc queued or consistent, domains shrunk, solutions kept) and decreases the (domain pairs, queue length) measure; an early stop means the domain of the x just revised is empty |
| `Generate.ReviseFrontDomains` | generate.py:138-139 | revising the front arc keeps the domain half of the loop invariant, and changes nothing when all queued arcs are consistent |
| `Generate.StepKeepsPending` | generate.py:137-145 | after revising the front arc and queueing (z, x) for every other neighbour z of x, every seeded arc is queued or consistent |
| `Generate.WorklistStep` | generate.py:137-145 | one step preserves the whole loop invariant, and the set of domain pairs shrinks or the queue gets shorter |
| `Generate.EnqueueNeighbors` | generate.py:142-145 | the queue keeps its prefix and grows by one less than the number of neighbours of x; the new tail holds (z, x) for every neighbour z of x other than y, and only such arcs |
| `Generate.EnqueueArcsTo` | generate.py:144-145 | the queue keeps its prefix and grows by the number of given neighbours; the new tail holds (z, x) for every given neighbour z, and only such arcs |
| `Generate.CombinationsSeedOneDirection` | generate.py:132-135 | when all arcs of `combinations(variables, 2)` are consistent, every pair of distinct slots is consistent in at least one direction |
| `Generate.CrosswordCreator.AC3AllArcs` | generate.py:122-130 | AC-3 seeded with both directions of every pair: True implies full arc consistency, False implies an empty domain, and no solution is lost |
| `Arcs.Combinations` | generate.py:134 | `combinations(order, 2)` (also at generate.py:168): n(n-1)/2 arcs for n slots; its members are stated by the lemmas below |
| `Arcs.AllArcs` | generate.py:124-125 | the both-direction seeding: n(n-1) arcs for n slots, each ordered pair of distinct slots (`Arcs.AllArcsMembers`) |
| `Arcs.CombinationsSound` | generate.py:134 | every arc of `combinations(order, 2)` is (order[p], order[q]) for some p < q |
| `Arcs.CombinationsComplete` | generate.py:134 | every (order[p], order[q]) with p < q is an arc of `combinations(order, 2)` |
| `Arcs.CombinationsMembers` | generate.py:134 | the arcs of `combinations(order, 2)` are exactly the pairs taken in order's order |
| `Arcs.CombinationsOneDirection` | generate.py:134 | for a repetition-free order, of every two distinct slots exactly one direction is among the `combinations` arcs |
| `Arcs.CombinationsArcsDistinct` | generate.py:134 | every `combinations` arc joins two distinct elements of the order |
| `Arcs.AllArcsMembers` | generate.py:124-125 | the both-direction seeding holds exactly the ordered pairs of distinct slots |
| `Arcs.PairsWith` | generate.py:134 | the arcs from one slot to each later one, in order |
| `Arcs.Flipped` | generate.py:124-125 | every arc reversed, position by position |
| `Generate.Enumerate` | generate.py:197 | `list(set)`: each element of the set exactly once, in some order |
| `Csp.CompleteMeansAllBound` | generate.py:148-153 | for an assignment over the puzzle's slots, `assignment_complete` is True exactly when it binds every slot, and when it is False some slot is unbound (what `select_unassigned_variable` picks from) |
| `Generate.CrosswordCreator.IsConsistent` | generate.py:155-176 | `consistent` returns True if and only if every word fits its slot's length, no two slots share a word, and both directions of every crossing pair agree on the shared letter |
| `Generate.CrosswordCreator.WordsFitAndDiffer` | generate.py:160-165 | the first loop returns True if and only if all lengths fit and the bound words are pairwise distinct |
| `Generate.CrosswordCreator.OverlapsAgree` | generate.py:167-176 | the second loop returns True if and only if every crossing pair agrees, in both directions |
| `Generate.CrosswordCreator.PairsAgree` | generate.py:168-174 | a list of pairs passes if and only if each of its pairs agrees |
| `Generate.CrosswordCreator.LettersMatch` | generate.py:169-174 | one pair passes if and only if it has no overlap or its words have the same letter there |
| `Generate.CombinationsAgreeAll` | generate.py:168 | checking one direction per pair, as `combinations(assignment, 2)` does, covers both directions because the overlap map is symmetric |
| `Puzzle.Neighbors` | generate.py:142 | `crossword.neighbors(x)`, as used at generate.py:142, 187 and 220: slots of the puzzle other than x that cross x |
| `Puzzle.NeighborsSymmetric` | generate.py:142-145 | over a well-formed puzzle y crosses x exactly when x crosses y, which is why revising x re-queues the arcs (z, x) |
| `Puzzle.Degree` | generate.py:220 | the tie-break key of `select_unassigned_variable`: the number of neighbours (a definition, used by `SelectUnassignedVariable`'s contract) |
| `Puzzle.Cell` | generate.py:28-29 | the cell of letter k of a slot (a definition; `Generate.OffsetOnCell` proves its inverse) |
| `Puzzle.OverlapInBounds` | generate.py:114-117 | the offsets of an overlap are letter positions of both slots, so the indexing in `revise` and `consistent` is in range |
| `Generate.CrosswordCreator.OrderDomainValues` | generate.py:178-197 | the result is a permutation of the slot's domain, ordered by the number of values each word rules out among the unbound neighbours, fewest first |
| `Generate.CrosswordCreator.WordValues` | generate.py:185-197 | the key of each word is its `getWordValue`, computed once per word |
| `Generate.CrosswordCreator.WordValue` | generate.py:185-195 | `getWordValue(word)` is the number of (neighbour, word) pairs it rules out among the unbound neighbours |
| `Generate.CrosswordCreator.CountDisagreeing` | generate.py:191-194 | the inner loop counts exactly the neighbour's words that disagree at the overlap |
| `Generate.DisagreeingAdd` | generate.py:190-194 | the neighbours' counts add up: each neighbour contributes its own disjoint set of ruled-out pairs |
| `Ordering.Insert` | generate.py:197 | insertion adds exactly one element and keeps every element keyed |
| `Ordering.InsertSorted` | generate.py:197 | inserting into a sequence sorted by key keeps it sorted |
| `Ordering.SortByKey` | generate.py:197 | `sorted(..., key=...)` returns a permutation of its input, in non-decreasing key order |
| `Generate.CrosswordCreator.SelectUnassignedVariable` | generate.py:199-221 | the winner is unbound; every other unbound slot has a larger domain, or an equal domain and no more neighbours |
| `Generate.CrosswordCreator.Backtrack` | generate.py:223-247 | a result is the same dictionary, complete and extended only with domain words, and a solution when the start was consistent; `None` means the dictionary is unchanged and no solution drawn from the domains completes it |
| `Generate.CrosswordCreator.TryValues` | generate.py:237-245 | the loop over the ordered words: a result is a solution extending the dictionary; no result means the dictionary is unchanged and no solution completing it binds the slot to any of the words |
| `Generate.CrosswordCreator.TryWord` | generate.py:237-245 | binding v to a word either yields a solution extending the dictionary, or restores the dictionary, in which case no completion binds v to that word |
| `Generate.CompletionUsesDomainWord` | generate.py:237 | every completion binds the selected slot to one of the ordered values, so trying them all is exhaustive |
| `Csp.CompletionStep` | generate.py:239-241 | a completion that binds v to the word also completes the extended assignment, which is therefore consistent |
| `Csp.ConsistentRestrict` | generate.py:240 | every part of a consistent assignment is consistent |
| `Csp.ExtendsStep` | generate.py:239-243 | a result extending the assignment with v bound also extends the assignment before the binding |
| `Csp.UnbindAfterBind` | generate.py:239-245 | `assignment.pop(var)` after `assignment[var] = word` restores the dictionary |
| `Generate.CrosswordCreator.Solve` | generate.py:82-88 | domains end node-consistent and shrunk; a result is a solution whose every word was in its slot's domain at the start; `None` means no such solution exists |
| `Csp.SolutionIsCompletionOfEmpty` | generate.py:88 | every solution drawn from the domains completes the empty assignment `backtrack` starts from |
| `Csp.SolutionFitsLengths` | generate.py:86 | a solution drawn from the vocabulary is drawn from the length-filtered domains |
| `Generate.CrosswordCreator.LetterGrid` | generate.py:19-31 | a fresh height-by-width grid equal, cell by cell, to `Paint` of the bound words, written in an arbitrary order of the bound slots |
| `Generate.CrosswordCreator.WriteWord` | generate.py:26-30 | writing one word sets exactly its cells to its letters |
| `Generate.PaintCovered` | generate.py:23-31 | a cell is empty exactly when no bound word crosses it, and a letter on it belongs to a word that crosses it |
| `Generate.PaintConsistent` | generate.py:23-31 | for a consistent assignment, every cell of every word holds that word's letter, whatever the writing order |
| `Generate.CoveringLettersAgree` | generate.py:25-30 | two letters of a consistent assignment on the same cell are equal, so overwriting never changes a cell |
| `Generate.OffsetOnCell` | generate.py:28-29 | the offset at which a slot crosses a cell is the inverse of the cell-of-letter computation |
| `Generate.PaintLast` | generate.py:27-30 | writing all letters of one more word completes the grid for the longer order |
| `Findings.OneDirectionSeedLeavesStaleWord` | generate.py:132-146 | on the example, `ac3` seeded with `combinations` returns True, and revising the unseeded reverse arc still removes a word |
| `Findings.BothDirectionSeedLeavesNothing` | generate.py:122-146 | on the example, AC-3 seeded with both directions returns True, and revising the reverse arc removes nothing |

## Left out

- `print`, `save` and `main` are not modelled: they are terminal, image and
  command-line I/O.
- The `Crossword` class of crossword.py is not part of this model. That
  covers parsing the structure and word files and computing `variables`,
  `overlaps` and `neighbors`. Its results are taken as a given value, with
  `WellFormed` stating what the solver assumes: overlaps are recorded for
  every pair, mirrored, and within both slots. `letter_grid` needs one more
  assumption, `CellsMatchOverlaps`: the overlaps agree with the grid
  geometry.
- `SimpleQueue` is modelled as a sequence used first in, first out. Its
  internals are not modelled.
- Set iteration order, `candidates.pop()` and `list(set)` are modelled as
  arbitrary choices. The properties hold for every order, but the model
  does not fix the order CPython would use.
- A `KeyError` from `overlaps[x, y]` or `domains[v]` for a slot outside the
  puzzle is excluded by `requires`. Likewise an `IndexError` from an offset
  beyond a word, and a `neighbors.remove(y)` on a y that does not cross x.
  `solve` never reaches any of these, because every slot comes from the
  puzzle and domains are length-filtered first.
- `Generate.CrosswordCreator.LetterGrid`: its `requires` demands that every
  letter of every bound word lies inside the grid. The source raises
  `IndexError` at generate.py:30 for a word that runs off the bottom or the
  right edge; the model does not capture that error path.
- `Generate.CrosswordCreator.AC3`: when `arcs` is given, it is taken as the
  initial contents of the queue (a sequence), not as a `SimpleQueue`
  object.
- `Generate.CrosswordCreator.AC3`: the True result does not promise that
  every domain is non-empty. The early return only checks a domain that has
  just shrunk, so a domain empty from the start is reported as success.
- `Generate.CrosswordCreator.Backtrack`: the truth test `if result:` is
  modelled as `result is not None`. A returned assignment is complete, and
  the recursive call happens only after a binding, so it is never an empty
  dictionary whenever the puzzle has a slot.
- `Generate.CrosswordCreator.OrderDomainValues`: `sorted` is stable, but the
  model's insertion sort is not: `Insert` puts an element after the
  equal-keyed elements, so two tied words come out in reverse order. The
  order of the input list is itself an arbitrary set order, so the order of
  ties is arbitrary either way, as the docstring allows.
- `Generate.CrosswordCreator.SelectUnassignedVariable`: among slots tied on
  both domain size and degree, the contract does not say which one wins.
  The source keeps the earlier winner, which depends on set order.
- `Generate.CrosswordCreator.Solve`: the contract does not say how the
  domains end beyond node consistency and shrinking. They also keep every
  solution, which the body uses, but that is not a separate guarantee of
  `solve`.

## Findings

| source | as written | input that shows it | evidently intended | confidence | as-written member | corrected member |
|---|---|---|---|---|---|---|
| generate.py:132-135 | the default initial queue of `ac3` holds `combinations(variables, 2)`, one direction per pair of slots, so a True result leaves the reverse arcs unchecked unless some domain changed | slot A across from (0, 0), length 2, and slot B down from (0, 1), length 3, sharing A's letter 1 and B's letter 0; words "ab", "bcd", "xyz"; A iterated first: the only seeded arc (A, B) already holds, `ac3` returns True, and "xyz" stays in B's domain though no word of A supports it | the docstring (generate.py:124-128) asks for arc consistency over all arcs, so both directions of every pair | not executed | `Findings.OneDirectionSeedLeavesStaleWord` | `Generate.CrosswordCreator.AC3AllArcs` |

Whether `solve` finds a solution does not change with this seeding:
`backtrack` checks every binding with `consistent`, and AC-3 keeps every
solution with either seeding (`KeepsSolutions` in the contracts of `AC3`
and `AC3AllArcs`). Which solution comes back can change, since the extra
pruning alters the domain sizes the variable heuristic compares and the
neighbour domains the value heuristic counts. `Generate.CrosswordCreator.Solve`
keeps the code's seeding, so it models the program as written. `Findings.BothDirectionSeedLeavesNothing` shows the corrected
seeding on the same puzzle.
