/**
 * Arcs of the AC-3 worklist and the ways `ac3` seeds it. The source seeds
 * with `itertools.combinations(variables, 2)`, which yields one direction per
 * unordered pair of slots; `AllArcs` seeds both directions.
 */
module Arcs {
  import opened Puzzle

  /** A directed arc (x, y): make x consistent with y. */
  type Arc = (Variable, Variable)

  /** No element occurs twice. */
  ghost predicate Distinct<T>(s: seq<T>)
  {
    forall p, q | 0 <= p < q < |s| :: s[p] != s[q]
  }

  /** The arcs (x, ys[0]), (x, ys[1]), ... */
  function PairsWith(x: Variable, ys: seq<Variable>): (r: seq<Arc>)
    ensures |r| == |ys| && forall k | 0 <= k < |ys| :: r[k] == (x, ys[k])
  {
    if ys == [] then [] else [(x, ys[0])] + PairsWith(x, ys[1..])
  }

  /** `combinations(order, 2)`: every (order[p], order[q]) with p < q, in lexicographic order. */
  function Combinations(order: seq<Variable>): (r: seq<Arc>)
    ensures 2 * |r| == |order| * (|order| - 1)
  {
    if order == [] then [] else PairsWith(order[0], order[1..]) + Combinations(order[1..])
  }

  /** Every arc reversed. */
  function Flipped(arcs: seq<Arc>): (r: seq<Arc>)
    ensures |r| == |arcs| && forall k | 0 <= k < |arcs| :: r[k] == (arcs[k].1, arcs[k].0)
  {
    if arcs == [] then [] else [(arcs[0].1, arcs[0].0)] + Flipped(arcs[1..])
  }

  /** Both directions of every pair: what `permutations(order, 2)` would give. */
  function AllArcs(order: seq<Variable>): (r: seq<Arc>)
    ensures |r| == |order| * (|order| - 1)
  {
    Combinations(order) + Flipped(Combinations(order))
  }

  /** Every arc of `combinations` is a pair taken in `order`'s order. */
  lemma {:induction false} CombinationsSound(order: seq<Variable>, x: Variable, y: Variable)
    requires (x, y) in Combinations(order)
    ensures exists p, q | 0 <= p < q < |order| :: order[p] == x && order[q] == y
  {
    var t := order[1..];
    if (x, y) in PairsWith(order[0], t) {
      var k :| 0 <= k < |t| && PairsWith(order[0], t)[k] == (x, y);
      assert order[0] == x && order[k + 1] == y;
    } else {
      assert (x, y) in Combinations(t);
      CombinationsSound(t, x, y);
      var p, q :| 0 <= p < q < |t| && t[p] == x && t[q] == y;
      assert order[p + 1] == x && order[q + 1] == y;
    }
  }

  /** Every pair taken in `order`'s order is an arc of `combinations`. */
  lemma {:induction false} CombinationsComplete(order: seq<Variable>, p: nat, q: nat)
    requires p < q < |order|
    ensures (order[p], order[q]) in Combinations(order)
  {
    var t := order[1..];
    if p == 0 {
      assert PairsWith(order[0], t)[q - 1] == (order[p], order[q]);
    } else {
      CombinationsComplete(t, p - 1, q - 1);
      assert t[p - 1] == order[p] && t[q - 1] == order[q];
    }
  }

  /** The arcs of `combinations` are exactly the pairs taken in `order`'s order. */
  lemma CombinationsMembers(order: seq<Variable>, x: Variable, y: Variable)
    ensures (x, y) in Combinations(order) <==> exists p, q | 0 <= p < q < |order| :: order[p] == x && order[q] == y
  {
    if (x, y) in Combinations(order) {
      CombinationsSound(order, x, y);
    }
    if exists p, q | 0 <= p < q < |order| :: order[p] == x && order[q] == y {
      var p, q :| 0 <= p < q < |order| && order[p] == x && order[q] == y;
      CombinationsComplete(order, p, q);
    }
  }

  /**
   * For a repetition-free `order`, `combinations` holds, of every two distinct
   * elements, exactly one direction.
   */
  lemma CombinationsOneDirection(order: seq<Variable>, x: Variable, y: Variable)
    requires Distinct(order) && x in order && y in order && x != y
    ensures ((x, y) in Combinations(order)) != ((y, x) in Combinations(order))
  {
    CombinationsMembers(order, x, y);
    CombinationsMembers(order, y, x);
    var p :| 0 <= p < |order| && order[p] == x;
    var q :| 0 <= q < |order| && order[q] == y;
    if p < q {
      assert (x, y) in Combinations(order);
    } else {
      assert (y, x) in Combinations(order);
    }
  }

  /** Every arc of `combinations` joins two distinct elements of `order`. */
  lemma CombinationsArcsDistinct(order: seq<Variable>, k: nat)
    requires Distinct(order) && k < |Combinations(order)|
    ensures Combinations(order)[k].0 in order && Combinations(order)[k].1 in order
    ensures Combinations(order)[k].0 != Combinations(order)[k].1
  {
    var arc := Combinations(order)[k];
    CombinationsMembers(order, arc.0, arc.1);
  }

  /** For a repetition-free `order`, `AllArcs` holds both directions of every pair, and nothing else. */
  lemma AllArcsMembers(order: seq<Variable>, x: Variable, y: Variable)
    requires Distinct(order)
    ensures (x, y) in AllArcs(order) <==> x in order && y in order && x != y
  {
    var c := Combinations(order);
    if x in order && y in order && x != y {
      CombinationsOneDirection(order, x, y);
      if (y, x) in c {
        var k :| 0 <= k < |c| && c[k] == (y, x);
        assert Flipped(c)[k] == (x, y);
      }
    }
    if (x, y) in AllArcs(order) {
      if (x, y) in c {
        var k :| 0 <= k < |c| && c[k] == (x, y);
        CombinationsArcsDistinct(order, k);
      } else {
        var k :| 0 <= k < |c| && Flipped(c)[k] == (x, y);
        CombinationsArcsDistinct(order, k);
      }
    }
  }
}
