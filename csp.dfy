/**
 * The constraint-satisfaction view of the puzzle: domains, assignments, and
 * the predicates that say when a domain is node- or arc-consistent and when
 * an assignment is consistent or a solution. The solver in generate.dfy is
 * proved against these definitions.
 */
module Csp {
  import opened Wrappers
  import opened Puzzle

  /** `self.domains`: the candidate words still open for each slot. */
  type Domains = map<Variable, set<Word>>

  /** The contents of an `assignment` dict: slot to word. */
  type Bindings = map<Variable, Word>

  /** Letter `o.0` of `w` equals letter `o.1` of `v`. */
  predicate Agree(w: Word, v: Word, o: Offsets)
  {
    o.0 < |w| && o.1 < |v| && w[o.0] == v[o.1]
  }

  /** Some word of `ys` agrees with `w` at offsets `(i, j)`: the `any(...)` of `revise`. */
  predicate HasSupport(w: Word, ys: set<Word>, i: nat, j: nat)
  {
    exists v | v in ys :: Agree(w, v, (i, j))
  }

  /** Every word in every domain has exactly its slot's length. */
  ghost predicate NodeConsistent(d: Domains)
  {
    forall v, w | v in d && w in d[v] :: |w| == v.length
  }

  /** Domains only shrink: same slots, each domain a subset of its earlier self. */
  ghost predicate Shrinks(d0: Domains, d: Domains)
  {
    d.Keys == d0.Keys && forall v | v in d :: d[v] <= d0[v]
  }

  /** What `revise(x, y)` leaves in the domain of x: the words supported in y's domain. */
  ghost function Revised(cw: Crossword, d: Domains, x: Variable, y: Variable): set<Word>
    requires x in d && y in d
  {
    match Overlap(cw, x, y)
    case None => d[x]
    case Some((i, j)) => set w | w in d[x] && HasSupport(w, d[y], i, j)
  }

  /** Every word of x's domain has a partner in y's domain at their overlap. */
  ghost predicate ArcConsistent(cw: Crossword, d: Domains, x: Variable, y: Variable)
  {
    x in d && y in d &&
    match Overlap(cw, x, y)
    case None => true
    case Some((i, j)) => forall w | w in d[x] :: HasSupport(w, d[y], i, j)
  }

  /** Arc consistency in both directions for every pair of distinct slots. */
  ghost predicate FullyArcConsistent(cw: Crossword, d: Domains)
  {
    forall x, y | x in cw.variables && y in cw.variables && x != y :: ArcConsistent(cw, d, x, y)
  }

  /**
   * The three conditions `consistent` checks: each bound word has its slot's
   * length, bound words are pairwise distinct, and crossing slots agree on
   * their shared letter.
   */
  ghost predicate Consistent(cw: Crossword, a: Bindings)
  {
    && (forall v | v in a :: |a[v]| == v.length)
    && (forall x, y | x in a && y in a && x != y :: a[x] != a[y])
    && (forall x, y | x in a && y in a && x != y && Overlap(cw, x, y).Some? ::
          Agree(a[x], a[y], Overlap(cw, x, y).value))
  }

  /** `assignment_complete`: every slot of the puzzle is bound. */
  predicate Complete(cw: Crossword, a: Bindings)
  {
    forall v | v in cw.variables :: v in a
  }

  /**
   * For an assignment over the puzzle's slots, complete means binding exactly
   * the slots, and an incomplete one leaves some slot unbound.
   */
  lemma CompleteMeansAllBound(cw: Crossword, a: Bindings)
    requires a.Keys <= cw.variables
    ensures Complete(cw, a) <==> a.Keys == cw.variables
    ensures !Complete(cw, a) ==> exists v :: v in cw.variables && v !in a
  {
  }

  /** A solution binds exactly the slots of the puzzle, consistently. */
  ghost predicate Solution(cw: Crossword, a: Bindings)
  {
    a.Keys == cw.variables && Consistent(cw, a)
  }

  /** Every bound word is still in its slot's domain. */
  ghost predicate DrawnFrom(a: Bindings, d: Domains)
  {
    forall v | v in a :: v in d && a[v] in d[v]
  }

  /** No solution drawn from `d0` is lost when the domains become `d`. */
  ghost predicate KeepsSolutions(cw: Crossword, d0: Domains, d: Domains)
  {
    forall s | Solution(cw, s) && DrawnFrom(s, d0) :: DrawnFrom(s, d)
  }

  /** `a` keeps every binding of `a0` and takes each new word from the domains. */
  ghost predicate Extends(d: Domains, a0: Bindings, a: Bindings)
  {
    && (forall v | v in a0 :: v in a && a[v] == a0[v])
    && (forall v | v in a && v !in a0 :: v in d && a[v] in d[v])
  }

  /** A solution that search could reach from the partial assignment `a0`. */
  ghost predicate Completion(cw: Crossword, d: Domains, a0: Bindings, s: Bindings)
  {
    Solution(cw, s) && Extends(d, a0, s)
  }

  /** The (slot, word) pairs of all domains; its size is the sum of the domain sizes. */
  ghost function DomainPairs(d: Domains): set<(Variable, Word)>
  {
    set v, w | v in d && w in d[v] :: (v, w)
  }

  // ---------------------------------------------------------------------
  // Revising one arc

  /** Revising keeps a subset of x's domain and drops exactly the unsupported words. */
  lemma ReviseDropsExactlyUnsupported(cw: Crossword, d: Domains, x: Variable, y: Variable, i: nat, j: nat)
    requires x in d && y in d && Overlap(cw, x, y) == Some((i, j))
    ensures Revised(cw, d, x, y) <= d[x]
    ensures forall w | w in d[x] :: w !in Revised(cw, d, x, y) <==> !HasSupport(w, d[y], i, j)
  {
  }

  /** Revising (x, y) changes nothing exactly when the arc is already consistent. */
  lemma ReviseNoChangeIffConsistent(cw: Crossword, d: Domains, x: Variable, y: Variable)
    requires x in d && y in d
    ensures Revised(cw, d, x, y) == d[x] <==> ArcConsistent(cw, d, x, y)
  {
    match Overlap(cw, x, y)
    case None =>
    case Some((i, j)) =>
      if Revised(cw, d, x, y) == d[x] {
        forall w | w in d[x] ensures HasSupport(w, d[y], i, j) {
          assert w in Revised(cw, d, x, y);
        }
      }
  }

  /** After revising (x, y) the arc (x, y) is consistent. */
  lemma ReviseMakesArcConsistent(cw: Crossword, d: Domains, x: Variable, y: Variable)
    requires x in d && y in d && x != y
    ensures ArcConsistent(cw, d[x := Revised(cw, d, x, y)], x, y)
  {
  }

  /** A slot's words in a solution support each other across every overlap. */
  lemma SolutionSupported(cw: Crossword, d: Domains, s: Bindings, x: Variable, y: Variable)
    requires Solution(cw, s) && DrawnFrom(s, d)
    requires x in cw.variables && y in cw.variables && x != y && Overlap(cw, x, y).Some?
    ensures HasSupport(s[x], d[y], Overlap(cw, x, y).value.0, Overlap(cw, x, y).value.1)
  {
    assert Agree(s[x], s[y], Overlap(cw, x, y).value);
  }

  /** Revising never removes a word that some solution drawn from the domains uses. */
  lemma ReviseKeepsSolutions(cw: Crossword, d: Domains, x: Variable, y: Variable)
    requires x in d && y in d && x in cw.variables && y in cw.variables && x != y
    ensures KeepsSolutions(cw, d, d[x := Revised(cw, d, x, y)])
  {
    forall s | Solution(cw, s) && DrawnFrom(s, d) ensures DrawnFrom(s, d[x := Revised(cw, d, x, y)]) {
      if Overlap(cw, x, y).Some? {
        SolutionSupported(cw, d, s, x, y);
      }
    }
  }

  /**
   * Revising (x, y) keeps the reverse arc (y, x) consistent: a word of x that
   * supported some word of y is itself supported by that word, so it stays.
   */
  lemma ReviseKeepsReverseArc(cw: Crossword, d: Domains, x: Variable, y: Variable)
    requires WellFormed(cw) && x in cw.variables && y in cw.variables && x != y
    requires ArcConsistent(cw, d, y, x)
    ensures ArcConsistent(cw, d[x := Revised(cw, d, x, y)], y, x)
  {
    var d' := d[x := Revised(cw, d, x, y)];
    match Overlap(cw, y, x)
    case None =>
    case Some((j, i)) =>
      assert Overlap(cw, x, y) == Some((i, j));
      forall v | v in d'[y] ensures HasSupport(v, d'[x], j, i) {
        var w :| w in d[x] && Agree(v, w, (j, i));
        assert Agree(w, v, (i, j));
        assert w in d'[x];
      }
  }

  /** Each solution stays drawn across two steps that each keep it. */
  lemma KeepsSolutionsTransitive(cw: Crossword, d0: Domains, d1: Domains, d2: Domains)
    requires KeepsSolutions(cw, d0, d1) && KeepsSolutions(cw, d1, d2)
    ensures KeepsSolutions(cw, d0, d2)
  {
  }

  /** Removing at least one word makes the set of (slot, word) pairs strictly smaller. */
  lemma DomainPairsShrink(d: Domains, x: Variable, r: set<Word>)
    requires x in d && r < d[x]
    ensures DomainPairs(d[x := r]) < DomainPairs(d)
  {
    var w :| w in d[x] && w !in r;
    assert (x, w) in DomainPairs(d);
    assert (x, w) !in DomainPairs(d[x := r]);
  }

  // ---------------------------------------------------------------------
  // Assignments

  /** A sub-assignment of a consistent assignment is consistent. */
  lemma ConsistentRestrict(cw: Crossword, a: Bindings, s: Bindings)
    requires Consistent(cw, s)
    requires forall v | v in a :: v in s && s[v] == a[v]
    ensures Consistent(cw, a)
  {
  }

  /**
   * A solution that extends `a0` and binds `v` to `w` also extends
   * `a0[v := w]`, which is therefore consistent.
   */
  lemma CompletionStep(cw: Crossword, d: Domains, a0: Bindings, v: Variable, w: Word, s: Bindings)
    requires Completion(cw, d, a0, s) && v !in a0 && v in s && s[v] == w
    ensures Completion(cw, d, a0[v := w], s)
    ensures Consistent(cw, a0[v := w])
  {
    ConsistentRestrict(cw, a0[v := w], s);
  }

  /** An assignment that extends `a0` bound at v to a domain word also extends `a0`. */
  lemma ExtendsStep(d: Domains, a0: Bindings, v: Variable, w: Word, a: Bindings)
    requires v !in a0 && v in d && w in d[v] && Extends(d, a0[v := w], a)
    ensures Extends(d, a0, a)
  {
  }

  /** `assignment.pop(var)` after `assignment[var] = word` restores an assignment without var. */
  lemma UnbindAfterBind(a0: Bindings, v: Variable, w: Word)
    requires v !in a0
    ensures a0[v := w] - {v} == a0
  {
  }

  /** A consistent binding of every variable, drawn from the domains, is a completion of the empty assignment. */
  lemma SolutionIsCompletionOfEmpty(cw: Crossword, d: Domains, s: Bindings)
    requires Solution(cw, s) && DrawnFrom(s, d)
    ensures Completion(cw, d, map[], s)
  {
  }

  /** A solution drawn from the vocabulary domains is drawn from the length-filtered ones. */
  lemma SolutionFitsLengths(cw: Crossword, d0: Domains, d1: Domains, s: Bindings)
    requires Solution(cw, s) && DrawnFrom(s, d0)
    requires d1.Keys == d0.Keys
    requires forall v, w | v in d1 && w in d0[v] :: w in d1[v] <==> |w| == v.length
    ensures DrawnFrom(s, d1)
  {
  }
}
