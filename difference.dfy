/**
 Array difference as the change detector uses it: the elements of the first
 sequence that do not occur in the second, in their original order, duplicates
 of the first sequence kept.
 */
module SeqDifference {

  ghost predicate Distinct<T>(s: seq<T>)
  {
    forall i, j :: 0 <= i < j < |s| ==> s[i] != s[j]
  }

  /** `r` is `a` with some of its elements left out, the rest in their order. */
  ghost predicate IsSubsequence<T>(r: seq<T>, a: seq<T>)
    decreases |a|
  {
    if r == [] then true
    else if a == [] then false
    else (r[0] == a[0] && IsSubsequence(r[1..], a[1..])) || IsSubsequence(r, a[1..])
  }

  function Difference(a: seq<string>, b: seq<string>): (r: seq<string>)
    ensures forall x :: x in r <==> x in a && x !in b
    ensures |r| <= |a|
  {
    if a == [] then [] else (if a[0] in b then [] else [a[0]]) + Difference(a[1..], b)
  }

  /** The difference keeps the relative order of the first sequence. */
  lemma {:induction false} DifferenceKeepsOrder(a: seq<string>, b: seq<string>)
    ensures IsSubsequence(Difference(a, b), a)
  {
    if a != [] {
      var r := Difference(a, b);
      var rest := Difference(a[1..], b);
      DifferenceKeepsOrder(a[1..], b);
      if a[0] in b {
        assert r == rest;
        if r != [] {
          assert IsSubsequence(r, a[1..]);
        }
      } else {
        assert r == [a[0]] + rest;
        assert r[1..] == rest;
      }
    }
  }

  /** Taken from a sequence without repeats, the difference has no repeats. */
  lemma {:induction false} DifferenceDistinct(a: seq<string>, b: seq<string>)
    requires Distinct(a)
    ensures Distinct(Difference(a, b))
  {
    if a != [] {
      DifferenceDistinct(a[1..], b);
      var rest := Difference(a[1..], b);
      if a[0] !in b {
        assert a[0] !in a[1..];
        assert a[0] !in rest;
      }
    }
  }

  /** Nothing is left when every element of the first sequence occurs in the second. */
  lemma {:induction false} DifferenceOfCovered(a: seq<string>, b: seq<string>)
    requires forall x :: x in a ==> x in b
    ensures Difference(a, b) == []
  {
    if a != [] {
      DifferenceOfCovered(a[1..], b);
    }
  }
}
