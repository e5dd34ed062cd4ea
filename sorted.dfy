/**
 * Python's `sorted(...)` over a set of timestamps: the ascending,
 * duplicate-free list of its elements.
 */
module SortedSets {

  predicate StrictlyIncreasing(s: seq<int>) {
    forall i, j :: 0 <= i < j < |s| ==> s[i] < s[j]
  }

  /** A set that is not empty has an element to pick. */
  lemma HasElement(s: set<int>)
    ensures s == {} || exists y :: y in s
  {
    if forall y :: y !in s {
      assert s == {};
    }
  }

  /** The least element of a non-empty set. */
  ghost function MinOf(s: set<int>): (m: int)
    requires s != {}
    ensures m in s && forall x :: x in s ==> m <= x
    decreases |s|
  {
    HasElement(s);
    var y :| y in s;
    if s == {y} then y
    else
      var rest := MinOf(s - {y});
      assert forall x :: x in s ==> x == y || x in s - {y};
      if y < rest then y else rest
  }

  /** The elements of `s` in ascending order. */
  ghost function SortedSeq(s: set<int>): seq<int>
    decreases |s|
  {
    if s == {} then [] else var m := MinOf(s); [m] + SortedSeq(s - {m})
  }

  /** `SortedSeq(s)` lists exactly the elements of `s`, each once, in ascending order. */
  lemma {:induction false} SortedSeqIsSortedSet(s: set<int>)
    ensures StrictlyIncreasing(SortedSeq(s))
    ensures forall x :: x in SortedSeq(s) <==> x in s
    ensures |SortedSeq(s)| == |s|
    decreases |s|
  {
    if s != {} {
      var m := MinOf(s);
      SortedSeqIsSortedSet(s - {m});
      var r := SortedSeq(s);
      assert r == [m] + SortedSeq(s - {m});
      forall i, j | 0 <= i < j < |r| ensures r[i] < r[j] {
        if i == 0 {
          assert r[j] in s - {m};
        }
      }
    }
  }

  /**
   * `sorted(s)`: repeatedly takes out the least remaining element.
   * Only the result is modelled, not Python's sorting algorithm.
   */
  method SortedElements(s: set<int>) returns (r: seq<int>)
    ensures r == SortedSeq(s)
    ensures StrictlyIncreasing(r) && (forall x :: x in r <==> x in s)
  {
    r := [];
    var rest := s;
    while rest != {}
      invariant r + SortedSeq(rest) == SortedSeq(s)
      decreases |rest|
    {
      HasElement(rest);
      assert MinOf(rest) in rest;
      var m :| m in rest && forall x :: x in rest ==> m <= x;
      assert m == MinOf(rest);
      r := r + [m];
      rest := rest - {m};
    }
    SortedSeqIsSortedSet(s);
  }

  /** Two ascending duplicate-free lists with the same elements are equal. */
  lemma {:induction false} StrictlyIncreasingUnique(a: seq<int>, b: seq<int>)
    requires StrictlyIncreasing(a) && StrictlyIncreasing(b)
    requires forall x :: x in a <==> x in b
    ensures a == b
    decreases |a|
  {
    if a != [] {
      assert a[0] in a;
    }
    if b != [] {
      assert b[0] in b;
    }
    if a != [] {
      var i :| 0 <= i < |a| && a[i] == b[0];
      var j :| 0 <= j < |b| && b[j] == a[0];
      assert a[0] <= a[i] && b[0] <= b[j];
      forall x ensures x in a[1..] <==> x in b[1..] {
        if x in a[1..] {
          assert x in b;
          assert x != b[0];
        }
        if x in b[1..] {
          assert x in a;
          assert x != a[0];
        }
      }
      StrictlyIncreasingUnique(a[1..], b[1..]);
      assert a == [a[0]] + a[1..];
      assert b == [b[0]] + b[1..];
    }
  }
}
