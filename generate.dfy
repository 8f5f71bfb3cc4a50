/**
 * `CrosswordCreator` from generate.py: the domain store and the solver.
 * Domains start as the whole vocabulary, are narrowed by node consistency
 * and AC-3, and then guide a backtracking search over a mutable assignment.
 */
module Generate {
  import opened Wrappers
  import opened Puzzle
  import opened Csp
  import opened Arcs
  import opened Ordering

  /** `list(s)`: the elements of a set, each once, in an arbitrary order. */
  method Enumerate<T>(s: set<T>) returns (r: seq<T>)
    ensures |r| == |s| && Distinct(r)
    ensures forall e :: e in r <==> e in s
    ensures multiset(r) == multiset(s)
  {
    r := [];
    var rest := s;
    while rest != {}
      invariant rest <= s && Distinct(r)
      invariant forall e :: e in r <==> e in s - rest
      invariant |r| + |rest| == |s|
      invariant multiset(r) + multiset(rest) == multiset(s)
      decreases rest
    {
      var e :| e in rest;
      forall p | 0 <= p < |r| ensures r[p] != e {
        assert r[p] in r;
      }
      r := r + [e];
      rest := rest - {e};
      assert multiset(rest) + multiset{e} == multiset(rest + {e});
    }
  }

  /** An arc between two distinct slots of the puzzle. */
  ghost predicate IsArc(cw: Crossword, arc: Arc)
  {
    arc.0 in cw.variables && arc.1 in cw.variables && arc.0 != arc.1
  }

  /** Every seeded arc is still waiting in the queue or is already consistent. */
  ghost predicate PendingOrConsistent(cw: Crossword, d: Domains, seed: seq<Arc>, queue: seq<Arc>)
  {
    forall k | 0 <= k < |seed| :: seed[k] in queue || ArcConsistent(cw, d, seed[k].0, seed[k].1)
  }

  /** Every arc of `arcs` is consistent. */
  ghost predicate AllConsistent(cw: Crossword, d: Domains, arcs: seq<Arc>)
  {
    forall k | 0 <= k < |arcs| :: ArcConsistent(cw, d, arcs[k].0, arcs[k].1)
  }

  /**
   * One AC-3 step keeps the worklist invariant: after revising the front arc
   * (x, y), every seeded arc is consistent or queued, provided the queue still
   * holds the rest of the old queue and, when x changed, every arc (z, x)
   * with z a neighbour of x other than y.
   */
  lemma StepKeepsPending(cw: Crossword, d: Domains, seed: seq<Arc>, queue: seq<Arc>, queue': seq<Arc>)
    requires WellFormed(cw) && d.Keys == cw.variables
    requires queue != [] && IsArc(cw, queue[0])
    requires forall k | 0 <= k < |seed| :: IsArc(cw, seed[k])
    requires PendingOrConsistent(cw, d, seed, queue)
    requires |queue| - 1 <= |queue'| && queue'[..|queue| - 1] == queue[1..]
    requires Revised(cw, d, queue[0].0, queue[0].1) != d[queue[0].0] ==>
      forall z | z in Neighbors(cw, queue[0].0) && z != queue[0].1 :: (z, queue[0].0) in queue'
    ensures PendingOrConsistent(cw, d[queue[0].0 := Revised(cw, d, queue[0].0, queue[0].1)], seed, queue')
  {
    var x, y := queue[0].0, queue[0].1;
    var d' := d[x := Revised(cw, d, x, y)];
    forall k | 0 <= k < |seed| && seed[k] !in queue'
      ensures ArcConsistent(cw, d', seed[k].0, seed[k].1)
    {
      var a, b := seed[k].0, seed[k].1;
      if (a, b) == (x, y) {
        ReviseMakesArcConsistent(cw, d, x, y);
      } else {
        assert ArcConsistent(cw, d, a, b);
        if a != x && b != x {
          assert d'[a] == d[a] && d'[b] == d[b];
        } else if a == x {
          assert d'[b] == d[b] && d'[a] <= d[a];
        } else if a == y {
          ReviseKeepsReverseArc(cw, d, x, y);
        } else if Overlap(cw, a, x).Some? {
          assert Overlap(cw, x, a).Some?;
          assert a in Neighbors(cw, x);
          ReviseNoChangeIffConsistent(cw, d, x, y);
        }
      }
    }
  }

  /**
   * When every arc of `combinations(order)` is consistent and `order` lists
   * the slots, each pair of distinct slots is consistent in at least one
   * direction.
   */
  lemma CombinationsSeedOneDirection(cw: Crossword, d: Domains, order: seq<Variable>)
    requires Distinct(order) && forall e :: e in order <==> e in cw.variables
    requires AllConsistent(cw, d, Combinations(order))
    ensures forall x, y | x in cw.variables && y in cw.variables && x != y ::
      ArcConsistent(cw, d, x, y) || ArcConsistent(cw, d, y, x)
  {
    var seed := Combinations(order);
    forall x, y | x in cw.variables && y in cw.variables && x != y
      ensures ArcConsistent(cw, d, x, y) || ArcConsistent(cw, d, y, x)
    {
      CombinationsOneDirection(order, x, y);
      if (x, y) in seed {
        var k :| 0 <= k < |seed| && seed[k] == (x, y);
      } else {
        var k :| 0 <= k < |seed| && seed[k] == (y, x);
      }
    }
  }

  /**
   * What every step of `ac3` keeps of the domains `d0` it started from: one
   * domain per slot, words of the slot's length only, each domain a subset
   * of its start, and every solution drawn from `d0` still drawn from them.
   */
  ghost predicate Narrowed(cw: Crossword, d0: Domains, d: Domains)
  {
    d.Keys == cw.variables && NodeConsistent(d) && Shrinks(d0, d) && KeepsSolutions(cw, d0, d)
  }

  /**
   * The invariant of the `ac3` loop, from the domains `d0` it started with:
   * domains only shrank, lost no solution, and every seeded arc is queued or
   * consistent; when every seeded arc was consistent from the start,
   * nothing has changed and every queued arc is consistent.
   */
  ghost predicate WorklistInvariant(cw: Crossword, d0: Domains, d: Domains, seed: seq<Arc>, queue: seq<Arc>, idle: bool)
  {
    && Narrowed(cw, d0, d)
    && (forall k | 0 <= k < |queue| :: IsArc(cw, queue[k]))
    && PendingOrConsistent(cw, d, seed, queue)
    && (idle ==> d == d0 && AllConsistent(cw, d, queue))
  }

  /**
   * Revising the front arc (x, y) keeps the domain half of the loop
   * invariant; when every queued arc was consistent it changes nothing.
   */
  lemma ReviseFrontDomains(cw: Crossword, d0: Domains, d: Domains, seed: seq<Arc>, x: Variable, y: Variable,
                           queue: seq<Arc>, idle: bool)
    requires WellFormed(cw) && WorklistInvariant(cw, d0, d, seed, queue, idle)
    requires queue != [] && queue[0] == (x, y)
    ensures x in d && y in d && Narrowed(cw, d0, d[x := Revised(cw, d, x, y)])
    ensures idle ==> Revised(cw, d, x, y) == d[x]
  {
    assert IsArc(cw, queue[0]);
    var d' := d[x := Revised(cw, d, x, y)];
    match Overlap(cw, x, y)
    case None =>
    case Some((i, j)) => ReviseDropsExactlyUnsupported(cw, d, x, y, i, j);
    ReviseKeepsSolutions(cw, d, x, y);
    KeepsSolutionsTransitive(cw, d0, d, d');
    if idle {
      assert ArcConsistent(cw, d, queue[0].0, queue[0].1);
      ReviseNoChangeIffConsistent(cw, d, x, y);
    }
  }

  /**
   * One turn of the `ac3` loop keeps its invariant. The domains go from `d`
   * to `d` with the front arc (x, y) revised, and the queue from `queue` to
   * `queue'`, which keeps the rest of `queue` and, when x lost words, holds
   * (z, x) for every other neighbour z of x. The pair (domains, queue
   * length) decreases.
   */
  lemma WorklistStep(cw: Crossword, d0: Domains, d: Domains, seed: seq<Arc>, x: Variable, y: Variable,
                     queue: seq<Arc>, queue': seq<Arc>, idle: bool)
    requires WellFormed(cw) && WorklistInvariant(cw, d0, d, seed, queue, idle)
    requires forall k | 0 <= k < |seed| :: IsArc(cw, seed[k])
    requires queue != [] && queue[0] == (x, y)
    requires forall k | 0 <= k < |queue'| :: IsArc(cw, queue'[k])
    requires |queue| - 1 <= |queue'| && queue'[..|queue| - 1] == queue[1..]
    requires x in d && y in d
    requires Revised(cw, d, x, y) != d[x] ==> forall z | z in Neighbors(cw, x) && z != y :: (z, x) in queue'
    requires Revised(cw, d, x, y) == d[x] ==> queue' == queue[1..]
    ensures WorklistInvariant(cw, d0, d[x := Revised(cw, d, x, y)], seed, queue', idle)
    ensures DomainPairs(d[x := Revised(cw, d, x, y)]) < DomainPairs(d) || (Revised(cw, d, x, y) == d[x] && |queue'| < |queue|)
  {
    assert IsArc(cw, queue[0]);
    var r := Revised(cw, d, x, y);
    var d' := d[x := r];
    ReviseFrontDomains(cw, d0, d, seed, x, y, queue, idle);
    StepKeepsPending(cw, d, seed, queue, queue');
    if r != d[x] {
      match Overlap(cw, x, y)
      case None =>
      case Some((i, j)) => ReviseDropsExactlyUnsupported(cw, d, x, y, i, j);
      DomainPairsShrink(d, x, r);
    } else {
      assert d' == d;
    }
  }

  /** `for z in neighbors: arcs.put((z, x))`, in the set's arbitrary order. */
  method EnqueueArcsTo(ghost cw: Crossword, queue: seq<Arc>, neighbors: set<Variable>, x: Variable)
    returns (queue': seq<Arc>)
    requires x in cw.variables && forall z | z in neighbors :: z in cw.variables && z != x
    requires forall k | 0 <= k < |queue| :: IsArc(cw, queue[k])
    ensures |queue'| == |queue| + |neighbors| && queue'[..|queue|] == queue
    ensures forall k | 0 <= k < |queue'| :: IsArc(cw, queue'[k])
    ensures forall z | z in neighbors :: (z, x) in queue'[|queue|..]
    ensures forall k | |queue| <= k < |queue'| :: queue'[k].1 == x && queue'[k].0 in neighbors
  {
    queue' := queue;
    var rest := neighbors;
    while rest != {}
      invariant rest <= neighbors
      invariant |queue| <= |queue'| && queue'[..|queue|] == queue
      invariant |queue'| + |rest| == |queue| + |neighbors|
      invariant forall k | 0 <= k < |queue'| :: IsArc(cw, queue'[k])
      invariant forall z | z in neighbors - rest :: (z, x) in queue'[|queue|..]
      invariant forall k | |queue| <= k < |queue'| :: queue'[k].1 == x && queue'[k].0 in neighbors - rest
      decreases rest
    {
      var z :| z in rest;
      assert (queue' + [(z, x)])[|queue|..] == queue'[|queue|..] + [(z, x)];
      queue' := queue' + [(z, x)];
      rest := rest - {z};
    }
  }

  /**
   * `neighbors = crossword.neighbors(x); neighbors.remove(y)`, then queue
   * (z, x) for each remaining neighbour z. The removal needs y to be a
   * neighbour of x, which holds whenever revising (x, y) removed a word.
   */
  method EnqueueNeighbors(cw: Crossword, queue: seq<Arc>, x: Variable, y: Variable) returns (queue': seq<Arc>)
    requires x in cw.variables && y in Neighbors(cw, x)
    requires forall k | 0 <= k < |queue| :: IsArc(cw, queue[k])
    ensures |queue'| == |queue| + |Neighbors(cw, x)| - 1 && queue'[..|queue|] == queue
    ensures forall k | 0 <= k < |queue'| :: IsArc(cw, queue'[k])
    ensures forall z | z in Neighbors(cw, x) && z != y :: (z, x) in queue'[|queue|..]
    ensures forall k | |queue| <= k < |queue'| :: queue'[k].1 == x && queue'[k].0 in Neighbors(cw, x) && queue'[k].0 != y
  {
    var neighbors := Neighbors(cw, x);
    neighbors := neighbors - {y};
    queue' := EnqueueArcsTo(cw, queue, neighbors, x);
  }

  /** The bound words of arc (x, y) agree at the pair's overlap, if there is one. */
  ghost predicate PairAgrees(cw: Crossword, a: Bindings, arc: Arc)
  {
    arc.0 in a && arc.1 in a &&
    (Overlap(cw, arc.0, arc.1).Some? ==> Agree(a[arc.0], a[arc.1], Overlap(cw, arc.0, arc.1).value))
  }

  /**
   * Checking one direction of every pair, as `combinations(assignment, 2)`
   * does, suffices: the overlap of (y, x) mirrors that of (x, y).
   */
  lemma CombinationsAgreeAll(cw: Crossword, a: Bindings, order: seq<Variable>)
    requires WellFormed(cw) && a.Keys <= cw.variables
    requires Distinct(order) && forall e :: e in order <==> e in a
    requires forall m | 0 <= m < |Combinations(order)| :: PairAgrees(cw, a, Combinations(order)[m])
    ensures forall x, y | x in a && y in a && x != y && Overlap(cw, x, y).Some? ::
      Agree(a[x], a[y], Overlap(cw, x, y).value)
  {
    var c := Combinations(order);
    forall x, y | x in a && y in a && x != y && Overlap(cw, x, y).Some?
      ensures Agree(a[x], a[y], Overlap(cw, x, y).value)
    {
      CombinationsOneDirection(order, x, y);
      if (x, y) in c {
        var m :| 0 <= m < |c| && c[m] == (x, y);
        assert PairAgrees(cw, a, c[m]);
      } else {
        var m :| 0 <= m < |c| && c[m] == (y, x);
        assert PairAgrees(cw, a, c[m]);
      }
    }
  }

  /**
   * The (slot, word) pairs among the slots `ns` whose word disagrees with
   * `word` placed in x, at the overlap of x with that slot.
   */
  ghost function Disagreeing(cw: Crossword, d: Domains, x: Variable, word: Word, ns: set<Variable>): set<(Variable, Word)>
  {
    set n, w | n in ns && n in d && w in d[n] && Overlap(cw, x, n).Some? && !Agree(word, w, Overlap(cw, x, n).value) :: (n, w)
  }

  /** The pairs of `Disagreeing` for the one slot n. */
  ghost function DisagreeingAt(cw: Crossword, d: Domains, x: Variable, word: Word, n: Variable): set<(Variable, Word)>
  {
    Disagreeing(cw, d, x, word, {n})
  }

  /** Adding the slot n to the slots `ns` adds the disagreeing pairs of n, which are new. */
  lemma DisagreeingAdd(cw: Crossword, d: Domains, x: Variable, word: Word, ns: set<Variable>, n: Variable)
    requires n !in ns
    ensures Disagreeing(cw, d, x, word, ns + {n}) == Disagreeing(cw, d, x, word, ns) + DisagreeingAt(cw, d, x, word, n)
    ensures Disagreeing(cw, d, x, word, ns) * DisagreeingAt(cw, d, x, word, n) == {}
  {
  }

  /** Taking n out of the slots still to visit adds it to those visited. */
  lemma MoveToDone(all: set<Variable>, rest: set<Variable>, n: Variable)
    requires n in rest && rest <= all
    ensures all - (rest - {n}) == (all - rest) + {n}
  {
  }

  /**
   * What binding x to `word` rules out: the words of x's unbound neighbours
   * that disagree with it where they cross.
   */
  ghost function RuledOut(cw: Crossword, d: Domains, a: Bindings, x: Variable, word: Word): set<(Variable, Word)>
  {
    Disagreeing(cw, d, x, word, Neighbors(cw, x) - a.Keys)
  }

  /**
   * Every solution completing `a0` binds the unbound slot v to a word of
   * its domain, so to one of `values` when those are the domain's words.
   */
  lemma CompletionUsesDomainWord(cw: Crossword, d: Domains, a0: Bindings, v: Variable, values: seq<Word>)
    requires v in cw.variables && v !in a0 && v in d && multiset(values) == multiset(d[v])
    ensures forall s | Completion(cw, d, a0, s) :: s[v] in values
  {
    forall s | Completion(cw, d, a0, s) ensures s[v] in values {
      assert s[v] in multiset(values);
    }
  }

  /** No solution completing `a0` binds v to w: trying w at v cannot succeed. */
  ghost predicate NoCompletionBinds(cw: Crossword, d: Domains, a0: Bindings, v: Variable, w: Word)
  {
    forall s | Completion(cw, d, a0, s) && v in s :: s[v] != w
  }

  /** The prefix of length k + 1 is the prefix of length k and element k. */
  lemma PrefixGrows<T>(s: seq<T>, k: nat)
    requires k < |s|
    ensures s[..k + 1] == s[..k] + [s[k]]
  {
  }

  /** No solution completing `a0` binds v to any of `ws`. */
  ghost predicate NoCompletionBindsAny(cw: Crossword, d: Domains, a0: Bindings, v: Variable, ws: seq<Word>)
  {
    forall s | Completion(cw, d, a0, s) && v in s :: s[v] !in ws
  }

  /** Ruling out one more word at v extends the words ruled out. */
  lemma NoCompletionBindsAppend(cw: Crossword, d: Domains, a0: Bindings, v: Variable, ws: seq<Word>, w: Word)
    requires NoCompletionBindsAny(cw, d, a0, v, ws) && NoCompletionBinds(cw, d, a0, v, w)
    ensures NoCompletionBindsAny(cw, d, a0, v, ws + [w])
  {
  }

  /** The letters that a consistent assignment puts on one cell are the same letter. */
  lemma CoveringLettersAgree(cw: Crossword, a: Bindings, v: Variable, k: nat, u: Variable, m: nat)
    requires CellsMatchOverlaps(cw) && Consistent(cw, a) && a.Keys <= cw.variables
    requires v in a && k < |a[v]| && u in a && m < |a[u]| && Cell(v, k) == Cell(u, m)
    ensures a[v][k] == a[u][m]
  {
    if v != u {
      assert Overlap(cw, v, u) == Some((k, m));
      assert Agree(a[v], a[u], (k, m));
    }
  }

  /** The offset at which slot v crosses cell (r, c), if it does: the inverse of `Cell`. */
  function OffsetOn(v: Variable, r: nat, c: nat): Option<nat>
  {
    if v.direction == Down then (if c == v.j && r >= v.i then Some(r - v.i) else None)
    else (if r == v.i && c >= v.j then Some(c - v.j) else None)
  }

  /** `OffsetOn` finds exactly the offsets `Cell` maps to the cell. */
  lemma OffsetOnCell(v: Variable, k: nat)
    ensures OffsetOn(v, Cell(v, k).0, Cell(v, k).1) == Some(k)
    ensures forall r: nat, c: nat | OffsetOn(v, r, c) == Some(k) :: (r, c) == Cell(v, k)
  {
  }

  /**
   * What cell (r, c) holds after the words of the slots in `order` are
   * written in turn on an empty grid: the letter of the last of them that
   * crosses the cell.
   */
  ghost function Paint(a: Bindings, order: seq<Variable>, r: nat, c: nat): Option<char>
    requires forall e | e in order :: e in a
  {
    if order == [] then None
    else
      var v := order[|order| - 1];
      var rest := order[..|order| - 1];
      match OffsetOn(v, r, c)
      case Some(m) => if m < |a[v]| then Some(a[v][m]) else Paint(a, rest, r, c)
      case None => Paint(a, rest, r, c)
  }

  /** The grid part-way through writing v's word: its first k letters over `Paint` of `done`. */
  ghost function PaintPartial(a: Bindings, done: seq<Variable>, v: Variable, k: nat, r: nat, c: nat): Option<char>
    requires v in a && forall e | e in done :: e in a
  {
    match OffsetOn(v, r, c)
    case Some(m) => if m < k && m < |a[v]| then Some(a[v][m]) else Paint(a, done, r, c)
    case None => Paint(a, done, r, c)
  }

  /** Writing all of v's word completes `Paint` of `done` followed by v. */
  lemma PaintLast(a: Bindings, done: seq<Variable>, v: Variable)
    requires v in a && forall e | e in done :: e in a
    ensures forall r: nat, c: nat :: PaintPartial(a, done, v, |a[v]|, r, c) == Paint(a, done + [v], r, c)
  {
    assert (done + [v])[..|done|] == done;
  }

  /**
   * A cell is empty exactly when no word of `order` crosses it, and a letter
   * on it is the letter of some word of `order` that crosses it.
   */
  lemma {:induction false} PaintCovered(a: Bindings, order: seq<Variable>, r: nat, c: nat)
    requires forall e | e in order :: e in a
    ensures Paint(a, order, r, c).None? <==> !exists v, m | v in order && 0 <= m < |a[v]| :: Cell(v, m) == (r, c)
    ensures Paint(a, order, r, c).Some? ==>
      exists v, m | v in order && 0 <= m < |a[v]| && Cell(v, m) == (r, c) :: a[v][m] == Paint(a, order, r, c).value
  {
    if order != [] {
      var v := order[|order| - 1];
      var rest := order[..|order| - 1];
      assert order == rest + [v];
      PaintCovered(a, rest, r, c);
      match OffsetOn(v, r, c)
      case Some(m) =>
        OffsetOnCell(v, m);
        if m >= |a[v]| {
          forall m' | 0 <= m' < |a[v]| ensures Cell(v, m') != (r, c) {
            OffsetOnCell(v, m');
          }
        }
      case None =>
        forall m' | 0 <= m' < |a[v]| ensures Cell(v, m') != (r, c) {
          OffsetOnCell(v, m');
        }
    }
  }

  /**
   * For a consistent assignment over a grid whose overlaps match its
   * geometry, every cell of every written word holds that word's letter,
   * whatever the order of writing.
   */
  lemma {:induction false} PaintConsistent(cw: Crossword, a: Bindings, order: seq<Variable>, v: Variable, k: nat)
    requires CellsMatchOverlaps(cw) && Consistent(cw, a) && a.Keys <= cw.variables
    requires (forall e | e in order :: e in a) && v in order && k < |a[v]|
    ensures Paint(a, order, Cell(v, k).0, Cell(v, k).1) == Some(a[v][k])
  {
    var (r, c) := Cell(v, k);
    var u := order[|order| - 1];
    var rest := order[..|order| - 1];
    assert order == rest + [u];
    match OffsetOn(u, r, c)
    case Some(m) =>
      OffsetOnCell(u, m);
      if m < |a[u]| {
        CoveringLettersAgree(cw, a, v, k, u, m);
      } else {
        OffsetOnCell(v, k);
        assert v != u;
        PaintConsistent(cw, a, rest, v, k);
      }
    case None =>
      OffsetOnCell(v, k);
      assert v != u;
      PaintConsistent(cw, a, rest, v, k);
  }

  /** `dict` assignment that `backtrack` extends and restores in place. */
  class Assignment {
    var bindings: Bindings

    constructor ()
      ensures bindings == map[]
    {
      bindings := map[];
    }
  }

  class CrosswordCreator {
    const crossword: Crossword
    var domains: Domains

    /** The store holds one domain per slot, over a well-formed puzzle. */
    ghost predicate Valid()
      reads this
    {
      WellFormed(crossword) && domains.Keys == crossword.variables
    }

    /** `__init__`: every slot starts with the whole vocabulary. */
    constructor (crossword: Crossword)
      requires WellFormed(crossword)
      ensures this.crossword == crossword && Valid()
      ensures forall v | v in crossword.variables :: domains[v] == crossword.words
    {
      this.crossword := crossword;
      domains := map v | v in crossword.variables :: crossword.words;
    }

    /**
     * `enforce_node_consistency`: each domain keeps exactly its words of the
     * slot's length.
     */
    method EnforceNodeConsistency()
      requires Valid()
      modifies this
      ensures Valid() && NodeConsistent(domains) && Shrinks(old(domains), domains)
      ensures forall v, w | v in domains && w in old(domains)[v] :: w in domains[v] <==> |w| == v.length
    {
      var remaining := crossword.variables;
      while remaining != {}
        invariant remaining <= crossword.variables && Valid()
        invariant forall v | v in domains && v in remaining :: domains[v] == old(domains)[v]
        invariant forall v | v in domains && v !in remaining ::
          domains[v] == set w | w in old(domains)[v] && |w| == v.length
        decreases remaining
      {
        var v :| v in remaining;
        domains := domains[v := set w | w in domains[v] && |w| == v.length];
        remaining := remaining - {v};
      }
    }

    /**
     * `revise(x, y)`: removes from x's domain the words with no partner in
     * y's domain at their overlap, and reports whether it removed any. With
     * no overlap it changes nothing.
     */
    method Revise(x: Variable, y: Variable) returns (revised: bool)
      requires Valid() && NodeConsistent(domains)
      requires x in crossword.variables && y in crossword.variables && x != y
      modifies this
      ensures Valid() && NodeConsistent(domains)
      ensures domains == old(domains)[x := Revised(crossword, old(domains), x, y)]
      ensures revised <==> domains[x] != old(domains)[x]
      ensures Overlap(crossword, x, y).None? ==> !revised
    {
      var overlap := crossword.overlaps[(x, y)];
      if overlap.None? {
        return false;
      }
      var (i, j) := overlap.value;
      var removeSet: set<Word> := {};
      var rest := domains[x];
      while rest != {}
        invariant rest <= domains[x]
        invariant removeSet == set w | w in domains[x] - rest && !HasSupport(w, domains[y], i, j)
        decreases rest
      {
        var w :| w in rest;
        if !HasSupport(w, domains[y], i, j) {
          removeSet := removeSet + {w};
        }
        rest := rest - {w};
      }
      assert domains[x] - removeSet == Revised(crossword, domains, x, y);
      if removeSet != {} {
        var w :| w in removeSet;
        assert w !in domains[x] - removeSet;
      }
      domains := domains[x := domains[x] - removeSet];
      revised := removeSet != {};
    }

    /**
     * `ac3(arcs)`: AC-3 over a FIFO worklist. With no arcs given it seeds the
     * worklist with `combinations(variables, 2)`, one direction per pair.
     * Domains only shrink and no solution drawn from them is lost. A False
     * result means some domain became empty. A True result means every
     * seeded arc is consistent; for the default seed that is only one
     * direction of each pair. When every seeded arc is already consistent,
     * nothing changes and the result is True.
     */
    method AC3(arcs: Option<seq<Arc>>) returns (ok: bool)
      requires Valid() && NodeConsistent(domains)
      requires arcs.Some? ==> forall k | 0 <= k < |arcs.value| :: IsArc(crossword, arcs.value[k])
      modifies this
      ensures Valid() && NodeConsistent(domains) && Shrinks(old(domains), domains)
      ensures KeepsSolutions(crossword, old(domains), domains)
      ensures !ok ==> exists v | v in domains :: domains[v] == {}
      ensures ok && arcs.Some? ==> AllConsistent(crossword, domains, arcs.value)
      ensures ok && arcs.None? ==> forall x, y | x in crossword.variables && y in crossword.variables && x != y ::
        ArcConsistent(crossword, domains, x, y) || ArcConsistent(crossword, domains, y, x)
      ensures arcs.Some? && AllConsistent(crossword, old(domains), arcs.value) ==> ok && domains == old(domains)
      ensures arcs.None? && FullyArcConsistent(crossword, old(domains)) ==> ok && domains == old(domains)
    {
      var queue: seq<Arc>;
      var order: seq<Variable> := [];
      if arcs.None? {
        order := Enumerate(crossword.variables);
        queue := Combinations(order);
        forall k | 0 <= k < |queue| ensures IsArc(crossword, queue[k]) {
          CombinationsArcsDistinct(order, k);
        }
      } else {
        queue := arcs.value;
      }
      ok := RunWorklist(queue);
      if arcs.None? && ok {
        CombinationsSeedOneDirection(crossword, domains, order);
      }
    }

    /**
     * One turn of the `ac3` loop: take the front arc (x, y) and revise it;
     * when x lost words, report an emptied domain, or otherwise queue (z, x)
     * for every other neighbour z of x.
     */
    method ReviseFront(ghost d0: Domains, ghost seed: seq<Arc>, queue: seq<Arc>, ghost idle: bool)
      returns (queue': seq<Arc>, emptied: bool)
      requires Valid() && WorklistInvariant(crossword, d0, domains, seed, queue, idle) && queue != []
      requires forall k | 0 <= k < |seed| :: IsArc(crossword, seed[k])
      modifies this
      ensures Valid() && Narrowed(crossword, d0, domains)
      ensures emptied ==> !idle && queue[0].0 in domains && domains[queue[0].0] == {}
      ensures !emptied ==> WorklistInvariant(crossword, d0, domains, seed, queue', idle)
      ensures !emptied ==> (DomainPairs(domains) < DomainPairs(old(domains)) ||
        (domains == old(domains) && |queue'| < |queue|))
    {
      var x, y := queue[0].0, queue[0].1;
      assert IsArc(crossword, queue[0]);
      ReviseFrontDomains(crossword, d0, domains, seed, x, y, queue, idle);
      ghost var before := domains;
      queue' := queue[1..];
      var revised := Revise(x, y);
      if revised {
        if domains[x] == {} {
          assert x in domains;
          return queue', true;
        }
        queue' := EnqueueNeighbors(crossword, queue', x, y);
      } else {
        assert queue'[..|queue| - 1] == queue';
      }
      WorklistStep(crossword, d0, before, seed, x, y, queue, queue', idle);
      emptied := false;
    }

    /** The loop of `ac3`: revise the front arc until the queue is empty or a domain is. */
    method RunWorklist(arcs: seq<Arc>) returns (ok: bool)
      requires Valid() && NodeConsistent(domains)
      requires forall k | 0 <= k < |arcs| :: IsArc(crossword, arcs[k])
      modifies this
      ensures Valid() && NodeConsistent(domains) && Shrinks(old(domains), domains)
      ensures KeepsSolutions(crossword, old(domains), domains)
      ensures !ok ==> exists v | v in domains :: domains[v] == {}
      ensures ok ==> AllConsistent(crossword, domains, arcs)
      ensures AllConsistent(crossword, old(domains), arcs) ==> ok && domains == old(domains)
    {
      var queue := arcs;
      ghost var idle := AllConsistent(crossword, domains, arcs);
      while queue != []
        invariant Valid() && WorklistInvariant(crossword, old(domains), domains, arcs, queue, idle)
        decreases DomainPairs(domains), |queue|
      {
        var emptied;
        queue, emptied := ReviseFront(old(domains), arcs, queue, idle);
        if emptied {
          return false;
        }
      }
      return true;
    }

    /**
     * AC-3 seeded with both directions of every pair, as the docstring of
     * `ac3` intends: a True result means every arc is consistent.
     */
    method AC3AllArcs() returns (ok: bool)
      requires Valid() && NodeConsistent(domains)
      modifies this
      ensures Valid() && NodeConsistent(domains) && Shrinks(old(domains), domains)
      ensures KeepsSolutions(crossword, old(domains), domains)
      ensures !ok ==> exists v | v in domains :: domains[v] == {}
      ensures ok ==> FullyArcConsistent(crossword, domains)
      ensures FullyArcConsistent(crossword, old(domains)) ==> ok && domains == old(domains)
    {
      var order := Enumerate(crossword.variables);
      var seed := AllArcs(order);
      forall k | 0 <= k < |seed| ensures IsArc(crossword, seed[k]) {
        AllArcsMembers(order, seed[k].0, seed[k].1);
      }
      ok := AC3(Some(seed));
      forall x, y | x in crossword.variables && y in crossword.variables && x != y
        ensures (x, y) in seed
      {
        AllArcsMembers(order, x, y);
      }
    }

    /**
     * `consistent(assignment)`: first every bound word must have its slot's
     * length and differ from the words seen before it; then every pair of
     * `combinations(assignment, 2)` with an overlap must agree there. The
     * answer is exactly `Consistent`, which checks both directions of every
     * pair.
     */
    method IsConsistent(a: Bindings) returns (b: bool)
      requires Valid() && a.Keys <= crossword.variables
      ensures b <==> Consistent(crossword, a)
    {
      var order := Enumerate(a.Keys);
      b := WordsFitAndDiffer(a, order);
      if b {
        b := OverlapsAgree(a, order);
      }
    }

    /** The first loop of `consistent`: lengths fit and no word is used twice. */
    method WordsFitAndDiffer(a: Bindings, order: seq<Variable>) returns (b: bool)
      requires Distinct(order) && forall e :: e in order <==> e in a
      ensures b <==> (forall v | v in a :: |a[v]| == v.length) && (forall x, y | x in a && y in a && x != y :: a[x] != a[y])
    {
      var encountered: set<Word> := {};
      var k := 0;
      while k < |order|
        invariant 0 <= k <= |order|
        invariant forall w :: w in encountered <==> exists p | 0 <= p < k :: a[order[p]] == w
        invariant forall p | 0 <= p < k :: |a[order[p]]| == order[p].length
        invariant forall p, q | 0 <= p < q < k :: a[order[p]] != a[order[q]]
      {
        var v := order[k];
        if v.length != |a[v]| {
          return false;
        }
        if a[v] in encountered {
          var p :| 0 <= p < k && a[order[p]] == a[v];
          assert order[p] != v;
          return false;
        }
        encountered := encountered + {a[v]};
        k := k + 1;
      }
      assert forall v | v in a :: |a[v]| == v.length by {
        forall v | v in a ensures |a[v]| == v.length {
          var p :| 0 <= p < |order| && order[p] == v;
        }
      }
      assert forall x, y | x in a && y in a && x != y :: a[x] != a[y] by {
        forall x, y | x in a && y in a && x != y ensures a[x] != a[y] {
          var p :| 0 <= p < |order| && order[p] == x;
          var q :| 0 <= q < |order| && order[q] == y;
          assert p != q;
        }
      }
      return true;
    }

    /**
     * The second loop of `consistent`: the pairs of `combinations` agree at
     * their overlaps, which holds exactly when every overlapping pair does.
     */
    method OverlapsAgree(a: Bindings, order: seq<Variable>) returns (b: bool)
      requires Valid() && a.Keys <= crossword.variables
      requires Distinct(order) && forall e :: e in order <==> e in a
      requires forall v | v in a :: |a[v]| == v.length
      ensures b <==> forall x, y | x in a && y in a && x != y && Overlap(crossword, x, y).Some? ::
        Agree(a[x], a[y], Overlap(crossword, x, y).value)
    {
      var pairs := Combinations(order);
      forall m | 0 <= m < |pairs| ensures pairs[m].0 in a && pairs[m].1 in a && pairs[m].0 != pairs[m].1 {
        CombinationsArcsDistinct(order, m);
      }
      b := PairsAgree(a, pairs);
      if b {
        CombinationsAgreeAll(crossword, a, order);
      } else {
        ghost var m :| 0 <= m < |pairs| && !PairAgrees(crossword, a, pairs[m]);
        assert !Agree(a[pairs[m].0], a[pairs[m].1], Overlap(crossword, pairs[m].0, pairs[m].1).value);
      }
    }

    /** The loop over `combinations(assignment, 2)`: stops at the first pair that disagrees. */
    method PairsAgree(a: Bindings, pairs: seq<Arc>) returns (b: bool)
      requires Valid() && a.Keys <= crossword.variables
      requires forall v | v in a :: |a[v]| == v.length
      requires forall m | 0 <= m < |pairs| :: pairs[m].0 in a && pairs[m].1 in a && pairs[m].0 != pairs[m].1
      ensures b <==> forall m | 0 <= m < |pairs| :: PairAgrees(crossword, a, pairs[m])
    {
      var n := 0;
      while n < |pairs|
        invariant 0 <= n <= |pairs|
        invariant forall m | 0 <= m < n :: PairAgrees(crossword, a, pairs[m])
      {
        var agrees := LettersMatch(a, pairs[n]);
        if !agrees {
          return false;
        }
        n := n + 1;
      }
      return true;
    }

    /**
     * `select_unassigned_variable`: an unbound slot with the fewest words
     * left in its domain and, among those, the most neighbours. The first
     * candidate is taken from the set, and a later one replaces the winner
     * only when it is strictly better, as `max` keeps its first argument on
     * a tie.
     */
    method SelectUnassignedVariable(a: Bindings) returns (winner: Variable)
      requires Valid() && !Complete(crossword, a)
      ensures winner in crossword.variables && winner !in a
      ensures forall v | v in crossword.variables && v !in a ::
        |domains[winner]| < |domains[v]| ||
        (|domains[winner]| == |domains[v]| && Degree(crossword, v) <= Degree(crossword, winner))
    {
      var candidates := crossword.variables - a.Keys;
      ghost var unbound :| unbound in crossword.variables && unbound !in a;
      assert unbound in candidates;
      winner :| winner in candidates;
      candidates := candidates - {winner};
      while candidates != {}
        invariant candidates <= crossword.variables - a.Keys
        invariant winner in crossword.variables && winner !in a
        invariant forall v | v in crossword.variables && v !in a && v !in candidates ::
          |domains[winner]| < |domains[v]| ||
          (|domains[winner]| == |domains[v]| && Degree(crossword, v) <= Degree(crossword, winner))
        decreases candidates
      {
        var candidate :| candidate in candidates;
        var candidateLen := |domains[candidate]|;
        var winnerLen := |domains[winner]|;
        if candidateLen < winnerLen {
          winner := candidate;
        } else if candidateLen == winnerLen {
          if Degree(crossword, candidate) > Degree(crossword, winner) {
            winner := candidate;
          }
        }
        candidates := candidates - {candidate};
      }
    }

    /**
     * The body of the second loop of `consistent`: with no overlap the pair
     * agrees; otherwise its words must have the same letter at the overlap.
     */
    method LettersMatch(a: Bindings, arc: Arc) returns (b: bool)
      requires Valid() && arc.0 in a && arc.1 in a && arc.0 != arc.1 && a.Keys <= crossword.variables
      requires |a[arc.0]| == arc.0.length && |a[arc.1]| == arc.1.length
      ensures b <==> PairAgrees(crossword, a, arc)
    {
      var (x, y) := arc;
      var overlap := crossword.overlaps[(x, y)];
      assert overlap == Overlap(crossword, x, y);
      if overlap.None? {
        return true;
      }
      var (i, j) := overlap.value;
      OverlapInBounds(crossword, x, y);
      b := a[x][i] == a[y][j];
    }

    /** The keys `sorted` computes: `getWordValue` of each word, once per word. */
    method WordValues(x: Variable, a: Bindings, words: seq<Word>) returns (key: map<Word, nat>)
      requires Valid() && NodeConsistent(domains) && x in crossword.variables
      requires forall k | 0 <= k < |words| :: words[k] in domains[x]
      ensures forall w :: w in key <==> w in words
      ensures forall w | w in key :: key[w] == |RuledOut(crossword, domains, a, x, w)|
    {
      key := map[];
      var k := 0;
      while k < |words|
        invariant 0 <= k <= |words|
        invariant forall w :: w in key <==> w in words[..k]
        invariant forall w | w in key :: key[w] == |RuledOut(crossword, domains, a, x, w)|
      {
        var v := WordValue(x, a, words[k]);
        assert words[..k + 1] == words[..k] + [words[k]];
        key := key[words[k] := v];
        k := k + 1;
      }
      assert words[..k] == words;
    }

    /**
     * `getWordValue(word)` inside `order_domain_values`: counts, over the
     * unbound neighbours of x and the words of their domains, the words
     * whose letter at the overlap differs from `word`'s: the number of
     * values binding x to `word` rules out.
     */
    method WordValue(x: Variable, a: Bindings, word: Word) returns (count: nat)
      requires Valid() && NodeConsistent(domains) && x in crossword.variables && |word| == x.length
      ensures count == |RuledOut(crossword, domains, a, x, word)|
    {
      var unassigned := Neighbors(crossword, x) - a.Keys;
      count := 0;
      ghost var counted: set<(Variable, Word)> := {};
      var rest := unassigned;
      while rest != {}
        invariant rest <= unassigned
        invariant counted == Disagreeing(crossword, domains, x, word, unassigned - rest)
        invariant count == |counted|
        decreases rest
      {
        var n :| n in rest;
        var c := CountDisagreeing(x, word, n);
        DisagreeingAdd(crossword, domains, x, word, unassigned - rest, n);
        MoveToDone(unassigned, rest, n);
        counted := counted + DisagreeingAt(crossword, domains, x, word, n);
        count := count + c;
        rest := rest - {n};
      }
      assert unassigned - rest == unassigned;
    }

    /** The inner loop of `getWordValue`: the words of n's domain that disagree with `word` in x. */
    method CountDisagreeing(x: Variable, word: Word, n: Variable) returns (c: nat)
      requires Valid() && NodeConsistent(domains) && x in crossword.variables && |word| == x.length
      requires n in Neighbors(crossword, x)
      ensures c == |DisagreeingAt(crossword, domains, x, word, n)|
    {
      var (i, j) := crossword.overlaps[(x, n)].value;
      OverlapInBounds(crossword, x, n);
      c := 0;
      ghost var found: set<(Variable, Word)> := {};
      var rest := domains[n];
      while rest != {}
        invariant rest <= domains[n]
        invariant found == set w | w in domains[n] - rest && !Agree(word, w, (i, j)) :: (n, w)
        invariant c == |found|
        decreases rest
      {
        var w :| w in rest;
        if word[i] != w[j] {
          assert (n, w) !in found;
          found := found + {(n, w)};
          c := c + 1;
        }
        rest := rest - {w};
      }
      assert found == DisagreeingAt(crossword, domains, x, word, n);
    }

    /**
     * `order_domain_values(x, assignment)`: the words of x's domain, each
     * once, sorted so that a word ruling out fewer values of the unbound
     * neighbours comes first. Each word's count is computed once, as
     * `sorted` computes its key once per element.
     */
    method OrderDomainValues(x: Variable, a: Bindings) returns (values: seq<Word>)
      requires Valid() && NodeConsistent(domains) && x in crossword.variables
      ensures multiset(values) == multiset(domains[x])
      ensures forall p | 0 <= p < |values| :: values[p] in domains[x]
      ensures forall p, q | 0 <= p < q < |values| ::
        |RuledOut(crossword, domains, a, x, values[p])| <= |RuledOut(crossword, domains, a, x, values[q])|
    {
      var words := Enumerate(domains[x]);
      var key := WordValues(x, a, words);
      values := SortByKey(words, key);
    }

    /**
     * `backtrack(assignment)`: returns the assignment itself once every slot
     * is bound; otherwise tries each ordered word of the selected slot in
     * turn. A result is the same dictionary, extended from the domains and
     * complete. No result means the dictionary is as it was and no solution
     * completes it.
     */
    method Backtrack(asg: Assignment) returns (result: Assignment?)
      requires Valid() && NodeConsistent(domains) && asg.bindings.Keys <= crossword.variables
      modifies asg
      decreases |crossword.variables - asg.bindings.Keys|, 2
      ensures result == null || result == asg
      ensures asg.bindings.Keys <= crossword.variables
      ensures result != null ==> Complete(crossword, asg.bindings) && Extends(domains, old(asg.bindings), asg.bindings)
      ensures result != null && Consistent(crossword, old(asg.bindings)) ==> Solution(crossword, asg.bindings)
      ensures result == null ==> asg.bindings == old(asg.bindings)
      ensures result == null ==> forall s :: !Completion(crossword, domains, old(asg.bindings), s)
    {
      if Complete(crossword, asg.bindings) {
        CompleteMeansAllBound(crossword, asg.bindings);
        return asg;
      }
      ghost var a0 := asg.bindings;
      var v := SelectUnassignedVariable(asg.bindings);
      var values := OrderDomainValues(v, asg.bindings);
      result := TryValues(asg, v, values);
      if result != null {
        CompleteMeansAllBound(crossword, asg.bindings);
      } else {
        CompletionUsesDomainWord(crossword, domains, a0, v, values);
      }
    }

    /**
     * The loop of `backtrack`: tries the ordered words of v in turn and stops
     * at the first that leads to a solution. No result means the dictionary
     * is as it was and no solution completing it binds v to any of the words.
     */
    method TryValues(asg: Assignment, v: Variable, values: seq<Word>) returns (result: Assignment?)
      requires Valid() && NodeConsistent(domains) && asg.bindings.Keys <= crossword.variables
      requires v in crossword.variables && v !in asg.bindings
      requires forall p | 0 <= p < |values| :: values[p] in domains[v]
      modifies asg
      decreases |crossword.variables - asg.bindings.Keys|, 1
      ensures result == null || result == asg
      ensures asg.bindings.Keys <= crossword.variables
      ensures result != null ==> Solution(crossword, asg.bindings) && Extends(domains, old(asg.bindings), asg.bindings)
      ensures result == null ==> asg.bindings == old(asg.bindings)
      ensures result == null ==> NoCompletionBindsAny(crossword, domains, old(asg.bindings), v, values)
    {
      ghost var a0 := asg.bindings;
      var k := 0;
      while k < |values|
        invariant 0 <= k <= |values| && asg.bindings == a0
        invariant NoCompletionBindsAny(crossword, domains, a0, v, values[..k])
      {
        var word := values[k];
        result := TryWord(asg, v, word);
        if result != null {
          return;
        }
        NoCompletionBindsAppend(crossword, domains, a0, v, values[..k], word);
        PrefixGrows(values, k);
        k := k + 1;
      }
      assert values[..k] == values;
      return null;
    }

    /**
     * One turn of the loop of `backtrack`: bind v to `word`, recurse if the
     * extension is consistent, and otherwise, or when the recursion fails,
     * `pop` the binding again. A result is a solution extending the
     * dictionary; no result means no solution extends it with v bound to
     * `word`.
     */
    method TryWord(asg: Assignment, v: Variable, word: Word) returns (result: Assignment?)
      requires Valid() && NodeConsistent(domains) && asg.bindings.Keys <= crossword.variables
      requires v in crossword.variables && v !in asg.bindings && word in domains[v]
      modifies asg
      decreases |crossword.variables - asg.bindings.Keys|, 0
      ensures result == null || result == asg
      ensures asg.bindings.Keys <= crossword.variables
      ensures result != null ==> Solution(crossword, asg.bindings) && Extends(domains, old(asg.bindings), asg.bindings)
      ensures result == null ==> asg.bindings == old(asg.bindings)
      ensures result == null ==> NoCompletionBinds(crossword, domains, old(asg.bindings), v, word)
    {
      ghost var a0 := asg.bindings;
      asg.bindings := asg.bindings[v := word];
      var ok := IsConsistent(asg.bindings);
      if ok {
        assert crossword.variables - asg.bindings.Keys == (crossword.variables - a0.Keys) - {v};
        result := Backtrack(asg);
        if result != null {
          ExtendsStep(domains, a0, v, word, asg.bindings);
          return;
        }
      }
      forall s | Completion(crossword, domains, a0, s) ensures s[v] != word {
        if s[v] == word {
          CompletionStep(crossword, domains, a0, v, word, s);
        }
      }
      asg.bindings := asg.bindings - {v};
      UnbindAfterBind(a0, v, word);
      result := null;
    }

    /**
     * `solve()`: node consistency, then `ac3()` with its result ignored,
     * then backtracking from an empty assignment. A result is a solution
     * whose every word was in its slot's domain when `solve` began; no
     * result means there is no such solution.
     */
    method Solve() returns (result: Assignment?)
      requires Valid()
      modifies this
      ensures Valid() && NodeConsistent(domains) && Shrinks(old(domains), domains)
      ensures result != null ==> Solution(crossword, result.bindings) && DrawnFrom(result.bindings, old(domains))
      ensures result == null ==> forall s | Solution(crossword, s) :: !DrawnFrom(s, old(domains))
    {
      EnforceNodeConsistency();
      ghost var filtered := domains;
      var _ := AC3(None);
      var assignment := new Assignment();
      result := Backtrack(assignment);
      forall s | Solution(crossword, s) && DrawnFrom(s, old(domains)) ensures DrawnFrom(s, domains) {
        SolutionFitsLengths(crossword, old(domains), filtered, s);
      }
      if result == null {
        forall s | Solution(crossword, s) && DrawnFrom(s, domains) ensures Completion(crossword, domains, map[], s) {
          SolutionIsCompletionOfEmpty(crossword, domains, s);
        }
      }
    }

    /**
     * `letter_grid(assignment)`: a height-by-width grid, empty at first, on
     * which the bound words are written one after another in the
     * dictionary's order; each write overwrites the cell. The grid is
     * `Paint` of that order.
     */
    method LetterGrid(a: Bindings) returns (letters: array2<Option<char>>, ghost order: seq<Variable>)
      requires forall v, k | v in a && 0 <= k < |a[v]| :: Cell(v, k).0 < crossword.height && Cell(v, k).1 < crossword.width
      ensures fresh(letters) && letters.Length0 == crossword.height && letters.Length1 == crossword.width
      ensures Distinct(order) && forall e :: e in order <==> e in a
      ensures forall r, c | 0 <= r < letters.Length0 && 0 <= c < letters.Length1 :: letters[r, c] == Paint(a, order, r, c)
    {
      letters := new Option<char>[crossword.height, crossword.width]((_, _) => None);
      var items := Enumerate(a.Keys);
      var n := 0;
      while n < |items|
        invariant 0 <= n <= |items|
        invariant forall r, c | 0 <= r < letters.Length0 && 0 <= c < letters.Length1 :: letters[r, c] == Paint(a, items[..n], r, c)
      {
        WriteWord(letters, a, items[..n], items[n]);
        assert items[..n + 1] == items[..n] + [items[n]];
        n := n + 1;
      }
      assert items[..n] == items;
      order := items;
    }

    /** The inner loop of `letter_grid`: writes the letters of v's word on its cells. */
    method WriteWord(letters: array2<Option<char>>, a: Bindings, ghost done: seq<Variable>, v: Variable)
      requires v in a && forall e | e in done :: e in a
      requires forall k | 0 <= k < |a[v]| :: Cell(v, k).0 < letters.Length0 && Cell(v, k).1 < letters.Length1
      requires forall r, c | 0 <= r < letters.Length0 && 0 <= c < letters.Length1 :: letters[r, c] == Paint(a, done, r, c)
      modifies letters
      ensures forall r, c | 0 <= r < letters.Length0 && 0 <= c < letters.Length1 :: letters[r, c] == Paint(a, done + [v], r, c)
    {
      var word := a[v];
      var k := 0;
      while k < |word|
        invariant 0 <= k <= |word|
        invariant forall r, c | 0 <= r < letters.Length0 && 0 <= c < letters.Length1 ::
          letters[r, c] == PaintPartial(a, done, v, k, r, c)
      {
        var cell := Cell(v, k);
        OffsetOnCell(v, k);
        letters[cell.0, cell.1] := Some(word[k]);
        k := k + 1;
      }
      PaintLast(a, done, v);
    }
  }
}
