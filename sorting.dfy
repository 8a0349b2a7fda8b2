/**
 * The in-place ascending sort applied to the resolved row indices before the
 * rows are fetched (Data/combine.py:133).  SortAscending is the reference
 * definition; SortInPlace is the in-place algorithm, proved to leave the array
 * holding exactly SortAscending of its old contents.
 */
module Sorting {
  import opened Sequences

  ghost predicate Sorted(s: seq<nat>)
  {
    forall i, j :: 0 <= i < j < |s| ==> s[i] <= s[j]
  }

  ghost predicate StrictlyIncreasing(s: seq<nat>)
  {
    forall i, j :: 0 <= i < j < |s| ==> s[i] < s[j]
  }

  /** Inserts x before the first element not smaller than it. */
  function Insert(x: nat, s: seq<nat>): seq<nat>
  {
    if s == [] then [x]
    else if x <= s[0] then [x] + s
    else [s[0]] + Insert(x, s[1..])
  }

  /** Inserting adds exactly x. */
  lemma {:induction false} InsertPermutation(x: nat, s: seq<nat>)
    ensures multiset(Insert(x, s)) == multiset(s) + multiset{x}
  {
    if s != [] && x > s[0] {
      InsertPermutation(x, s[1..]);
      assert s == [s[0]] + s[1..];
    }
  }

  /** Every element is at least lo. */
  ghost predicate AllAtLeast(s: seq<nat>, lo: nat)
  {
    forall k :: 0 <= k < |s| ==> lo <= s[k]
  }

  /** A sequence that starts with its least element and goes on ascending is ascending. */
  lemma ConsSorted(h: nat, rest: seq<nat>)
    requires Sorted(rest) && AllAtLeast(rest, h)
    ensures Sorted([h] + rest)
  {
    var r := [h] + rest;
    forall i, j | 0 <= i < j < |r| ensures r[i] <= r[j] {
      assert r[j] == rest[j - 1];
      if i > 0 {
        assert r[i] == rest[i - 1];
      }
    }
  }

  /** Dropping the first element of an ascending sequence leaves it ascending. */
  lemma SortedTail(a: seq<nat>)
    requires Sorted(a) && a != []
    ensures Sorted(a[1..]) && AllAtLeast(a[1..], a[0])
  {
    forall i, j | 0 <= i < j < |a| - 1 ensures a[1..][i] <= a[1..][j] {
      assert a[1..][i] == a[i + 1] && a[1..][j] == a[j + 1];
    }
    forall k | 0 <= k < |a| - 1 ensures a[0] <= a[1..][k] {
      assert a[1..][k] == a[k + 1];
    }
  }

  /** Inserting an element no smaller than lo into elements no smaller than lo keeps them so. */
  lemma {:induction false} InsertAtLeast(x: nat, s: seq<nat>, lo: nat)
    requires lo <= x && AllAtLeast(s, lo)
    ensures AllAtLeast(Insert(x, s), lo)
  {
    if s != [] && x > s[0] {
      assert AllAtLeast(s[1..], lo) by {
        forall k | 0 <= k < |s| - 1 ensures lo <= s[1..][k] {
          assert s[1..][k] == s[k + 1];
        }
      }
      InsertAtLeast(x, s[1..], lo);
      var r := [s[0]] + Insert(x, s[1..]);
      forall k | 0 <= k < |r| ensures lo <= r[k] {
        if k > 0 {
          assert r[k] == Insert(x, s[1..])[k - 1];
        }
      }
    }
  }

  /** Inserting into an ascending sequence keeps it ascending. */
  lemma {:induction false} InsertSorted(x: nat, s: seq<nat>)
    requires Sorted(s)
    ensures Sorted(Insert(x, s))
  {
    if s == [] {
    } else if x <= s[0] {
      SortedTail(s);
      assert AllAtLeast(s, x);
      ConsSorted(x, s);
    } else {
      SortedTail(s);
      InsertSorted(x, s[1..]);
      InsertAtLeast(x, s[1..], s[0]);
      ConsSorted(s[0], Insert(x, s[1..]));
    }
  }

  /** The reference sort: an ascending permutation of s. */
  function SortAscending(s: seq<nat>): (r: seq<nat>)
    ensures Sorted(r)
    ensures multiset(r) == multiset(s)
  {
    if s == [] then []
    else
      var rest := SortAscending(s[1..]);
      InsertSorted(s[0], rest);
      InsertPermutation(s[0], rest);
      assert s == [s[0]] + s[1..];
      Insert(s[0], rest)
  }

  /** Two ascending permutations of each other start with the same element. */
  lemma SortedPermutationHeads(a: seq<nat>, b: seq<nat>)
    requires Sorted(a) && Sorted(b) && a != []
    requires multiset(a) == multiset(b)
    ensures b != [] && a[0] == b[0]
  {
    assert |b| == |multiset(b)| == |multiset(a)| == |a|;
    assert b[0] in multiset(a) && a[0] in multiset(b);
    assert b[0] in a && a[0] in b;
  }

  /** Permutations of each other with the same first element go on with permutations of each other. */
  lemma PermutationTails(a: seq<nat>, b: seq<nat>)
    requires a != [] && b != [] && a[0] == b[0]
    requires multiset(a) == multiset(b)
    ensures multiset(a[1..]) == multiset(b[1..])
  {
    assert a == [a[0]] + a[1..] && b == [b[0]] + b[1..];
    forall y ensures multiset(a[1..])[y] == multiset(b[1..])[y] {
      assert multiset(a)[y] == multiset{a[0]}[y] + multiset(a[1..])[y];
      assert multiset(b)[y] == multiset{b[0]}[y] + multiset(b[1..])[y];
    }
  }

  lemma SameHeadSameTail(a: seq<nat>, b: seq<nat>)
    requires a != [] && b != [] && a[0] == b[0] && a[1..] == b[1..]
    ensures a == b
  {
    assert a == [a[0]] + a[1..] && b == [b[0]] + b[1..];
  }

  /** There is only one ascending permutation of a sequence. */
  lemma {:induction false} SortedUnique(a: seq<nat>, b: seq<nat>)
    requires Sorted(a) && Sorted(b)
    requires multiset(a) == multiset(b)
    ensures a == b
  {
    if a == [] {
      assert |multiset(b)| == 0;
    } else {
      SortedPermutationHeads(a, b);
      PermutationTails(a, b);
      SortedTail(a);
      SortedTail(b);
      SortedUnique(a[1..], b[1..]);
      SameHeadSameTail(a, b);
    }
  }

  /** Sorting indices that have no repeats gives a strictly ascending sequence. */
  lemma SortDistinctIsStrict(s: seq<nat>)
    requires Distinct(s)
    ensures StrictlyIncreasing(SortAscending(s))
  {
    DistinctPermutation(s, SortAscending(s));
  }

  /** Exchanges two adjacent elements. */
  method SwapAdjacent(a: array<nat>, j: nat)
    requires 0 < j < a.Length
    modifies a
    ensures a[j - 1] == old(a[j]) && a[j] == old(a[j - 1])
    ensures forall k :: 0 <= k < a.Length && k != j - 1 && k != j ==> a[k] == old(a[k])
    ensures multiset(a[..]) == multiset(old(a[..]))
  {
    a[j - 1], a[j] := a[j], a[j - 1];
  }

  /** Insertion sort in place: afterwards a holds the ascending permutation of its old contents. */
  method SortInPlace(a: array<nat>)
    modifies a
    ensures a[..] == SortAscending(old(a[..]))
  {
    var i := 0;
    while i < a.Length
      invariant 0 <= i <= a.Length
      invariant Sorted(a[..i])
      invariant multiset(a[..]) == multiset(old(a[..]))
    {
      var j := i;
      while 0 < j && a[j] < a[j - 1]
        invariant 0 <= j <= i
        invariant forall p, q :: 0 <= p < q <= i && p != j && q != j ==> a[p] <= a[q]
        invariant forall q :: j < q <= i ==> a[j] < a[q]
        invariant 0 < j < i ==> a[j - 1] <= a[j + 1]
        invariant multiset(a[..]) == multiset(old(a[..]))
      {
        SwapAdjacent(a, j);
        j := j - 1;
      }
      i := i + 1;
    }
    assert a[..a.Length] == a[..];
    SortedUnique(a[..], SortAscending(old(a[..])));
  }

}
