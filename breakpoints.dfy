/**
 * Normalising the collected breakpoints: `sorted(set(breakpoints))`
 * (x.py, main). The result is strictly ascending and has the same elements
 * as the input; no clamping against the sequence length happens here.
 */
module Breakpoints {

  predicate StrictlyAscending(s: seq<int>) {
    forall i, j :: 0 <= i < j < |s| ==> s[i] < s[j]
  }

  predicate NonDecreasing(s: seq<int>) {
    forall i, j :: 0 <= i < j < |s| ==> s[i] <= s[j]
  }

  /** Puts `x` into its place in the strictly ascending `r`, unless it is already there. */
  function Insert(x: int, r: seq<int>): (r': seq<int>)
    requires StrictlyAscending(r)
    ensures StrictlyAscending(r')
    ensures forall y :: y in r' <==> y == x || y in r
    decreases |r|
  {
    if r == [] then [x]
    else if x < r[0] then [x] + r
    else if x == r[0] then r
    else
      var tail := Insert(x, r[1..]);
      assert forall k :: 0 <= k < |tail| ==> tail[k] in tail && r[0] < tail[k];
      [r[0]] + tail
  }

  /** `sorted(set(s))`: the distinct elements of `s` in ascending order. */
  function Normalize(s: seq<int>): (r: seq<int>)
    ensures StrictlyAscending(r)
    ensures forall y :: y in r <==> y in s
    decreases |s|
  {
    if s == [] then [] else Insert(s[0], Normalize(s[1..]))
  }

  /**
   * A strictly ascending sequence is determined by its elements, so
   * Normalize agrees with any other way of sorting the set.
   */
  lemma {:induction false} AscendingUnique(a: seq<int>, b: seq<int>)
    requires StrictlyAscending(a) && StrictlyAscending(b)
    requires forall y :: y in a <==> y in b
    ensures a == b
    decreases |a|
  {
    assert b != [] ==> b[0] in b && b[0] in a;
    assert a != [] ==> a[0] in a && a[0] in b;
    if a != [] {
      assert b[0] in a;
      assert a[0] == b[0];
      forall y
        ensures y in a[1..] <==> y in b[1..]
      {
        if y in a[1..] {
          var j :| 1 <= j < |a| && a[j] == y;
          assert y in b && y != b[0];
        }
        if y in b[1..] {
          var j :| 1 <= j < |b| && b[j] == y;
          assert y in a && y != a[0];
        }
      }
      AscendingUnique(a[1..], b[1..]);
      assert a == [a[0]] + a[1..] && b == [b[0]] + b[1..];
    }
  }

  /** Normalising twice is normalising once. */
  lemma NormalizeIdempotent(s: seq<int>)
    ensures Normalize(Normalize(s)) == Normalize(s)
  {
    AscendingUnique(Normalize(Normalize(s)), Normalize(s));
  }

  /** A list that is already strictly ascending comes back unchanged. */
  lemma NormalizeAscending(s: seq<int>)
    requires StrictlyAscending(s)
    ensures Normalize(s) == s
  {
    AscendingUnique(Normalize(s), s);
  }

  /** Only the set of values matters: reordering or repeating breakpoints changes nothing. */
  lemma NormalizeSameElements(s: seq<int>, t: seq<int>)
    requires forall y :: y in s <==> y in t
    ensures Normalize(s) == Normalize(t)
  {
    AscendingUnique(Normalize(s), Normalize(t));
  }

  /** Drops each element equal to its successor: the distinct values of a non-decreasing list. */
  function Dedup(s: seq<int>): (r: seq<int>)
    requires NonDecreasing(s)
    ensures StrictlyAscending(r)
    ensures forall y :: y in r <==> y in s
    ensures s != [] ==> r != [] && r[0] == s[0]
    decreases |s|
  {
    if |s| <= 1 then s
    else if s[0] == s[1] then Dedup(s[1..])
    else
      var rest := Dedup(s[1..]);
      assert forall k :: 0 <= k < |rest| ==> rest[k] in s[1..];
      [s[0]] + rest
  }

  /** On a non-decreasing list, sorting the set is dropping the repeats. */
  lemma NormalizeNonDecreasing(s: seq<int>)
    requires NonDecreasing(s)
    ensures Normalize(s) == Dedup(s)
  {
    AscendingUnique(Normalize(s), Dedup(s));
  }
}
