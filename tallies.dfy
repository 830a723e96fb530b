/**
 * Occurrence counting, the idiom `freq[x] = (freq[x] || 0) + 1` folded over a list,
 * and the sum of a map's values.
 */
module Tallies {

  /** The counts a left-to-right pass of `freq[x] = (freq[x] || 0) + 1` leaves behind:
      one key per distinct element, mapped to its number of occurrences. */
  function Tally<T>(xs: seq<T>): (m: map<T, nat>)
    ensures m.Keys == set x | x in xs
    ensures forall x :: x in m ==> m[x] == multiset(xs)[x] && m[x] > 0
  {
    if xs == [] then map[]
    else
      var prev := Tally(xs[..|xs| - 1]);
      var x := xs[|xs| - 1];
      assert xs == xs[..|xs| - 1] + [x];
      prev[x := (if x in prev then prev[x] else 0) + 1]
  }

  /** Counting one more element updates only that element's count. */
  lemma TallySnoc<T>(xs: seq<T>, x: T)
    ensures Tally(xs + [x]) == Tally(xs)[x := (if x in Tally(xs) then Tally(xs)[x] else 0) + 1]
  {
    var ys := xs + [x];
    assert ys[..|ys| - 1] == xs;
    assert ys[|ys| - 1] == x;
  }

  /** The sum of all values of a map. */
  ghost function SumValues<K>(m: map<K, nat>): nat
    decreases |m|
  {
    if m == map[] then 0
    else
      assert exists k :: k in m by {
        assert m.Keys != {};
        var k :| k in m.Keys;
        assert k in m;
      }
      var k :| k in m;
      m[k] + SumValues(m - {k})
  }

  /** The sum does not depend on which key is taken out first. */
  lemma {:induction false} SumValuesRemove<K>(m: map<K, nat>, k: K)
    requires k in m
    ensures SumValues(m) == m[k] + SumValues(m - {k})
    decreases |m|
  {
    var j :| j in m && SumValues(m) == m[j] + SumValues(m - {j});
    if j != k {
      SumValuesRemove(m - {j}, k);
      SumValuesRemove(m - {k}, j);
      assert m - {j} - {k} == m - {k} - {j};
    }
  }

  /** Counting one more occurrence raises the total by exactly one. */
  lemma SumValuesIncrement<K>(m: map<K, nat>, k: K)
    ensures SumValues(m[k := (if k in m then m[k] else 0) + 1]) == SumValues(m) + 1
  {
    var m' := m[k := (if k in m then m[k] else 0) + 1];
    SumValuesRemove(m', k);
    assert m' - {k} == m - {k};
    if k in m {
      SumValuesRemove(m, k);
    } else {
      assert m - {k} == m;
    }
  }

  /** The counts of a tally add up to the length of the list. */
  lemma {:induction false} TallySum<T>(xs: seq<T>)
    ensures SumValues(Tally(xs)) == |xs|
    decreases |xs|
  {
    if xs != [] {
      TallySum(xs[..|xs| - 1]);
      SumValuesIncrement(Tally(xs[..|xs| - 1]), xs[|xs| - 1]);
    }
  }
}
