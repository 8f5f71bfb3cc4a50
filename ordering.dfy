/**
 * Python's `sorted(values, key=...)`: a permutation of the values, in
 * non-decreasing order of their keys. The keys are computed once per value
 * beforehand, as `sorted` does, and passed as a map.
 */
module Ordering {

  /** Non-decreasing by `key`, which gives every element a key. */
  ghost predicate SortedByKey<T>(s: seq<T>, key: map<T, nat>)
  {
    forall p, q | 0 <= p < q < |s| :: s[p] in key && s[q] in key && key[s[p]] <= key[s[q]]
  }

  /** Every element has a key. */
  ghost predicate Keyed<T>(s: seq<T>, key: map<T, nat>)
  {
    forall k | 0 <= k < |s| :: s[k] in key
  }

  /** Puts `x` into `s` just before the first element with a larger key. */
  function Insert<T>(x: T, s: seq<T>, key: map<T, nat>): (r: seq<T>)
    requires x in key && Keyed(s, key)
    ensures multiset(r) == multiset(s) + multiset{x} && Keyed(r, key)
  {
    if s == [] then [x]
    else if key[x] < key[s[0]] then [x] + s
    else
      assert s == [s[0]] + s[1..];
      [s[0]] + Insert(x, s[1..], key)
  }

  /** Inserting into a sorted sequence keeps it sorted. */
  lemma {:induction false} InsertSorted<T>(x: T, s: seq<T>, key: map<T, nat>)
    requires x in key && Keyed(s, key) && SortedByKey(s, key)
    ensures SortedByKey(Insert(x, s, key), key)
  {
    if s != [] && key[s[0]] <= key[x] {
      var t := Insert(x, s[1..], key);
      InsertSorted(x, s[1..], key);
      forall k | 0 <= k < |t| ensures t[k] in key && key[s[0]] <= key[t[k]] {
        assert t[k] in multiset(s[1..]) + multiset{x};
        if t[k] != x {
          var p :| 0 <= p < |s[1..]| && s[1..][p] == t[k];
          assert s[p + 1] == t[k];
        }
      }
    }
  }

  /** `sorted(s, key=...)`: insertion sort, a permutation of `s` sorted by key. */
  function SortByKey<T>(s: seq<T>, key: map<T, nat>): (r: seq<T>)
    requires Keyed(s, key)
    ensures multiset(r) == multiset(s) && Keyed(r, key)
    ensures SortedByKey(r, key)
  {
    if s == [] then []
    else
      assert s == [s[0]] + s[1..];
      var t := SortByKey(s[1..], key);
      InsertSorted(s[0], t, key);
      Insert(s[0], t, key)
  }
}
