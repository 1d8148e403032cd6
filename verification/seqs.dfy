/** Sequence operations the data layer uses: pandas' `unique()` (distinct values in order of
    first appearance), `value_counts()` (occurrence counts) and the sum of counts. */
module Seqs {

  predicate Distinct<T(==)>(s: seq<T>) {
    forall i, j :: 0 <= i < j < |s| ==> s[i] != s[j]
  }

  /** pandas' `Series.unique()`: each value once, in order of first appearance. */
  function Unique<T(==)>(s: seq<T>): seq<T> {
    if s == [] then []
    else
      var u := Unique(s[..|s| - 1]);
      if s[|s| - 1] in u then u else u + [s[|s| - 1]]
  }

  /** The index of the first occurrence of x in s. */
  function FirstIndex<T(==)>(s: seq<T>, x: T): (k: nat)
    requires x in s
    ensures k < |s| && s[k] == x && forall j :: 0 <= j < k ==> s[j] != x
  {
    if s[0] == x then 0 else 1 + FirstIndex(s[1..], x)
  }

  /** Number of occurrences of x in s. */
  function Count<T(==)>(s: seq<T>, x: T): nat {
    if s == [] then 0 else Count(s[..|s| - 1], x) + (if s[|s| - 1] == x then 1 else 0)
  }

  /** The sum of the occurrence counts in s of every value listed in keys. */
  function SumCounts<T(==)>(keys: seq<T>, s: seq<T>): nat {
    if keys == [] then 0 else SumCounts(keys[..|keys| - 1], s) + Count(s, keys[|keys| - 1])
  }

  /** `unique()` lists exactly the values of s, each once. */
  lemma {:induction false} UniqueIsDistinctAndComplete<T>(s: seq<T>)
    ensures Distinct(Unique(s))
    ensures forall x :: x in Unique(s) <==> x in s
  {
    if s != [] {
      var init := s[..|s| - 1];
      UniqueIsDistinctAndComplete(init);
      assert s == init + [s[|s| - 1]];
    }
  }

  lemma FirstIndexAppend<T>(s: seq<T>, x: T, y: T)
    requires y in s
    ensures FirstIndex(s + [x], y) == FirstIndex(s, y)
  {
    var k := FirstIndex(s, y);
    var k' := FirstIndex(s + [x], y);
    assert (s + [x])[k] == y;
    assert k' <= k;
  }

  /** `unique()` lists values in order of their first appearance in s (it does not sort them). */
  lemma {:induction false} UniqueInFirstAppearanceOrder<T>(s: seq<T>)
    ensures forall x :: x in Unique(s) ==> x in s
    ensures forall i, j :: 0 <= i < j < |Unique(s)| ==>
      FirstIndex(s, Unique(s)[i]) < FirstIndex(s, Unique(s)[j])
  {
    UniqueIsDistinctAndComplete(s);
    if s != [] {
      var init, x := s[..|s| - 1], s[|s| - 1];
      var u := Unique(init);
      UniqueInFirstAppearanceOrder(init);
      UniqueIsDistinctAndComplete(init);
      assert s == init + [x];
      forall y | y in u ensures FirstIndex(s, y) == FirstIndex(init, y) {
        FirstIndexAppend(init, x, y);
      }
      if x !in u {
        assert FirstIndex(s, x) == |init| by {
          assert forall j :: 0 <= j < |init| ==> s[j] != x;
        }
      }
    }
  }

  lemma {:induction false} CountOfDistinct<T>(u: seq<T>, x: T)
    requires Distinct(u)
    ensures Count(u, x) == if x in u then 1 else 0
  {
    if u != [] {
      var init := u[..|u| - 1];
      CountOfDistinct(init, x);
      assert u == init + [u[|u| - 1]];
    }
  }

  lemma {:induction false} CountAbsent<T>(s: seq<T>, x: T)
    requires x !in s
    ensures Count(s, x) == 0
  {
    if s != [] {
      CountAbsent(s[..|s| - 1], x);
    }
  }

  lemma {:induction false} SumCountsAppend<T>(keys: seq<T>, s: seq<T>, x: T)
    ensures SumCounts(keys, s + [x]) == SumCounts(keys, s) + Count(keys, x)
  {
    if keys != [] {
      SumCountsAppend(keys[..|keys| - 1], s, x);
      assert (s + [x])[..|s + [x]| - 1] == s;
    }
  }

  /** The counts of the distinct values of s add up to the length of s. */
  lemma {:induction false} SumCountsOfUnique<T>(s: seq<T>)
    ensures SumCounts(Unique(s), s) == |s|
  {
    if s != [] {
      var init, x := s[..|s| - 1], s[|s| - 1];
      var u := Unique(init);
      SumCountsOfUnique(init);
      UniqueIsDistinctAndComplete(init);
      assert s == init + [x];
      SumCountsAppend(u, init, x);
      CountOfDistinct(u, x);
      if x !in u {
        assert (u + [x])[..|u + [x]| - 1] == u;
        CountAbsent(init, x);
      }
    }
  }
}
