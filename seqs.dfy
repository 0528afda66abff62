/** Sequence helpers shared by the timeline and the statistics. */
module Seqs {

  /** No element occurs twice. */
  ghost predicate NoDuplicates<T>(s: seq<T>) {
    forall i, j :: 0 <= i < j < |s| ==> s[i] != s[j]
  }

  /** Position of the first occurrence of `x` in `s` (JavaScript's `indexOf`). */
  function FirstIndex<T(==)>(s: seq<T>, x: T): (i: nat)
    requires x in s
    ensures i < |s| && s[i] == x
    ensures x !in s[..i]
  {
    if s[0] == x then 0
    else
      var j := FirstIndex(s[1..], x);
      assert s[..j + 1] == [s[0]] + s[1..][..j];
      j + 1
  }

  /**
   * `[...new Set(s)]`: the elements of `s` with later repeats removed, in
   * the order of their first occurrence. A JavaScript Set keeps insertion
   * order and ignores re-insertion, so each element is appended when seen
   * for the first time.
   */
  function Distinct<T(==)>(s: seq<T>): (r: seq<T>)
    ensures |r| <= |s|
    ensures forall i :: 0 <= i < |r| ==> r[i] in s
    ensures forall i :: 0 <= i < |s| ==> s[i] in r
    ensures NoDuplicates(r)
  {
    if s == [] then []
    else
      var d := Distinct(s[..|s| - 1]);
      var x := s[|s| - 1];
      assert s == s[..|s| - 1] + [x];
      if x in d then d else d + [x]
  }

  lemma FirstIndexSnoc<T>(s: seq<T>, x: T, y: T)
    requires y in s + [x]
    ensures y in s ==> FirstIndex(s + [x], y) == FirstIndex(s, y)
    ensures y !in s ==> FirstIndex(s + [x], y) == |s|
  {
    var i := FirstIndex(s + [x], y);
    if y in s {
      var k := FirstIndex(s, y);
      assert (s + [x])[k] == y;
      assert (s + [x])[..i] == s[..i] by { assert i <= k; }
      assert s[..k] == (s + [x])[..k];
      assert i == k;
    } else {
      assert (s + [x])[..|s|] == s;
    }
  }

  /** Distinct elements come out in the order of their first occurrence in `s`. */
  lemma {:induction false} DistinctFirstSeenOrder<T>(s: seq<T>, i: nat, j: nat)
    requires i < j < |Distinct(s)|
    ensures FirstIndex(s, Distinct(s)[i]) < FirstIndex(s, Distinct(s)[j])
  {
    var p := s[..|s| - 1];
    var x := s[|s| - 1];
    assert s == p + [x];
    var d := Distinct(p);
    var a, b := Distinct(s)[i], Distinct(s)[j];
    if x in d {
      assert Distinct(s) == d;
      DistinctFirstSeenOrder(p, i, j);
      FirstIndexSnoc(p, x, a);
      FirstIndexSnoc(p, x, b);
    } else {
      assert Distinct(s) == d + [x];
      assert a in p;
      FirstIndexSnoc(p, x, a);
      FirstIndexSnoc(p, x, b);
      if j < |d| {
        DistinctFirstSeenOrder(p, i, j);
      } else {
        assert b == x && x !in p;
        assert FirstIndex(p, a) < |p|;
      }
    }
  }

  /** A sequence that already has no duplicates is its own `Distinct`. */
  lemma {:induction false} DistinctOfDistinct<T>(s: seq<T>)
    requires NoDuplicates(s)
    ensures Distinct(s) == s
  {
    if s != [] {
      var p := s[..|s| - 1];
      assert s == p + [s[|s| - 1]];
      assert NoDuplicates(p);
      DistinctOfDistinct(p);
      assert s[|s| - 1] !in p;
    }
  }
}
