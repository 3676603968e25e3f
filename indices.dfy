/**
 * Index sets as numpy builds them: `np.where(mask)[0]` (the positions of a
 * boolean mask that hold, ascending) and `np.intersect1d(a, b)` (the sorted
 * distinct values present in both arrays).
 */
module Indices {

  /** Sorted and duplicate-free. */
  predicate StrictlyAscending(s: seq<nat>) {
    forall i, j :: 0 <= i < j < |s| ==> s[i] < s[j]
  }

  function Elements(s: seq<nat>): set<nat> {
    set x | x in s
  }

  /** `np.where(mask)[0]`: exactly the positions where the mask holds, ascending. */
  function Where(mask: seq<bool>): (r: seq<nat>)
    ensures StrictlyAscending(r)
    ensures forall t :: 0 <= t < |r| ==> r[t] < |mask| && mask[r[t]]
    ensures forall i :: 0 <= i < |mask| && mask[i] ==> i in r
  {
    if |mask| == 0 then []
    else
      var last := |mask| - 1;
      Where(mask[..last]) + (if mask[last] then [last] else [])
  }

  /** A strict upper bound on the values of `a`. */
  function Bound(a: seq<nat>): (n: nat)
    ensures forall x :: x in a ==> x < n
  {
    if |a| == 0 then 0
    else
      var m := Bound(a[1..]);
      assert a == [a[0]] + a[1..];
      if a[0] < m then m else a[0] + 1
  }

  /** `np.intersect1d(a, b)`: the values common to both, sorted and without repeats. */
  function Intersect1d(a: seq<nat>, b: seq<nat>): (r: seq<nat>)
    ensures StrictlyAscending(r)
    ensures forall x :: x in r <==> x in a && x in b
  {
    var n := Bound(a);
    Where(seq(n, (i: int) requires 0 <= i < n => i in a && i in b))
  }

  /** A strictly ascending sequence is determined by its elements. */
  lemma {:induction false} AscendingUnique(s: seq<nat>, t: seq<nat>)
    requires StrictlyAscending(s) && StrictlyAscending(t)
    requires forall x :: x in s <==> x in t
    ensures s == t
  {
    if |s| > 0 || |t| > 0 {
      assert |s| > 0 ==> s[0] in t;
      assert |t| > 0 ==> t[0] in s;
      var i :| 0 <= i < |s| && s[i] == t[0];
      var j :| 0 <= j < |t| && t[j] == s[0];
      assert s[0] <= s[i] && t[0] <= t[j];
      assert s[0] == t[0];
      forall x
        ensures x in s[1..] <==> x in t[1..]
      {
        if x in s[1..] {
          var k :| 1 <= k < |s| && s[k] == x;
          assert x > s[0];
          assert x in t && x != t[0];
          var l :| 0 <= l < |t| && t[l] == x;
          assert l != 0;
          assert t[1..][l - 1] == x;
        }
        if x in t[1..] {
          var k :| 1 <= k < |t| && t[k] == x;
          assert x > t[0];
          assert x in s && x != s[0];
          var l :| 0 <= l < |s| && s[l] == x;
          assert l != 0;
          assert s[1..][l - 1] == x;
        }
      }
      AscendingUnique(s[1..], t[1..]);
      assert s == [s[0]] + s[1..] && t == [t[0]] + t[1..];
    }
  }

  /** The intersection does not depend on which operand is computed first. */
  lemma Intersect1dCommutes(a: seq<nat>, b: seq<nat>)
    ensures Intersect1d(a, b) == Intersect1d(b, a)
  {
    AscendingUnique(Intersect1d(a, b), Intersect1d(b, a));
  }

  /** A strictly ascending sequence has as many distinct elements as entries. */
  lemma {:induction false} AscendingCard(s: seq<nat>)
    requires StrictlyAscending(s)
    ensures |Elements(s)| == |s|
  {
    if |s| > 0 {
      AscendingCard(s[1..]);
      assert Elements(s) == {s[0]} + Elements(s[1..]);
      assert s[0] !in Elements(s[1..]);
    }
  }

  /** A strictly ascending sequence whose elements all occur in another is no longer. */
  lemma AscendingSubsetLength(s: seq<nat>, t: seq<nat>)
    requires StrictlyAscending(s) && StrictlyAscending(t)
    requires forall x :: x in s ==> x in t
    ensures |s| <= |t|
  {
    AscendingCard(s);
    AscendingCard(t);
    var es, et := Elements(s), Elements(t);
    assert et == es + (et - es);
    assert |et| == |es| + |et - es|;
  }
}
