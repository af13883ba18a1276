/**
 * Ordering of the collected names: qsort with cmpstr, which compares the two
 * names with strcmp. Only the result of qsort is modelled (a permutation,
 * non-decreasing under strcmp); the sort below is an insertion sort.
 */
module Sorting {
  import opened Bytes

  /** cmpstr(a, b) <= 0 for every pair in order: non-decreasing under strcmp. */
  predicate Sorted(s: seq<seq<byte>>) {
    forall i, j :: 0 <= i < j < |s| ==> Strcmp(s[i], s[j]) <= 0
  }

  predicate AdjacentSorted(s: seq<seq<byte>>) {
    forall k :: 0 < k < |s| ==> Strcmp(s[k - 1], s[k]) <= 0
  }

  /** Since strcmp order is transitive, neighbours in order put the whole sequence in order. */
  lemma {:induction false} AdjacentSortedIsSorted(s: seq<seq<byte>>)
    requires AdjacentSorted(s)
    ensures Sorted(s)
    decreases |s|
  {
    if |s| > 1 {
      var init := s[..|s| - 1];
      assert AdjacentSorted(init);
      AdjacentSortedIsSorted(init);
      var last := |s| - 1;
      forall i | 0 <= i < last
        ensures Strcmp(s[i], s[last]) <= 0
      {
        if i < last - 1 {
          assert Strcmp(init[i], init[last - 1]) <= 0;
          StrcmpTransitive(s[i], s[last - 1], s[last]);
        }
      }
    }
  }

  /**
   * qsort(a, n, sizeof(char *), cmpstr): puts a[..n] in strcmp order, as a
   * permutation of what was there, and leaves a[n..] alone.
   */
  method SortNames(a: array<seq<byte>>, n: nat)
    requires n <= a.Length
    modifies a
    ensures Sorted(a[..n])
    ensures multiset(a[..n]) == multiset(old(a[..n]))
    ensures a[n..] == old(a[n..])
  {
    var i := 0;
    while i < n
      invariant 0 <= i <= n
      invariant AdjacentSorted(a[..i])
      invariant multiset(a[..]) == multiset(old(a[..]))
      invariant a[n..] == old(a[n..])
    {
      InsertNext(a, i);
      i := i + 1;
    }
    AdjacentSortedIsSorted(a[..n]);
    PrefixMultiset(a[..], old(a[..]), n);
  }

  /** Two permutations of each other that agree from n on are permutations of each other up to n. */
  lemma PrefixMultiset(s: seq<seq<byte>>, t: seq<seq<byte>>, n: nat)
    requires n <= |s| == |t| && multiset(s) == multiset(t) && s[n..] == t[n..]
    ensures multiset(s[..n]) == multiset(t[..n])
  {
    assert s == s[..n] + s[n..] && t == t[..n] + t[n..];
    calc {
      multiset(s[..n]);
      multiset(s) - multiset(s[n..]);
      multiset(t) - multiset(t[n..]);
      multiset(t[..n]);
    }
  }

  /**
   * The state of one insertion step: the element being inserted sits at j,
   * the rest of s[..i + 1] is in order, and the neighbours of j are in order
   * across it.
   */
  ghost predicate Inserting(s: seq<seq<byte>>, i: nat, j: nat) {
    j <= i < |s| &&
    (forall k :: 0 < k <= i && k != j && k != j + 1 ==> Strcmp(s[k - 1], s[k]) <= 0) &&
    (0 < j < i ==> Strcmp(s[j - 1], s[j + 1]) <= 0) &&
    (j < i ==> Strcmp(s[j], s[j + 1]) <= 0)
  }

  lemma InsertingStart(s: seq<seq<byte>>, i: nat)
    requires i < |s| && AdjacentSorted(s[..i])
    ensures Inserting(s, i, i)
  {
  }

  lemma InsertingSwap(s: seq<seq<byte>>, i: nat, j: nat)
    requires Inserting(s, i, j) && 0 < j && Strcmp(s[j - 1], s[j]) > 0
    ensures Inserting(s[j - 1 := s[j]][j := s[j - 1]], i, j - 1)
  {
    StrcmpAntisymmetric(s[j - 1], s[j]);
  }

  lemma InsertingDone(s: seq<seq<byte>>, i: nat, j: nat)
    requires Inserting(s, i, j) && (j == 0 || Strcmp(s[j - 1], s[j]) <= 0)
    ensures AdjacentSorted(s[..i + 1])
  {
  }

  /** Swapping two neighbours below i + 1 keeps the elements and everything after i. */
  lemma SwapKeeps(s: seq<seq<byte>>, i: nat, j: nat)
    requires 0 < j <= i < |s|
    ensures multiset(s[j - 1 := s[j]][j := s[j - 1]]) == multiset(s)
    ensures s[j - 1 := s[j]][j := s[j - 1]][i + 1..] == s[i + 1..]
  {
    var t := s[j - 1 := s[j]][j := s[j - 1]];
    var front, back := s[..j - 1], s[j + 1..];
    assert s == front + [s[j - 1], s[j]] + back;
    assert t == front + [s[j], s[j - 1]] + back;
    assert multiset(s) == multiset(front) + multiset{s[j - 1], s[j]} + multiset(back);
    assert multiset(t) == multiset(front) + multiset{s[j], s[j - 1]} + multiset(back);
    assert t[i + 1..] == s[i + 1..];
  }

  /** One step of the insertion sort: moves a[i] down into the sorted a[..i]. */
  method InsertNext(a: array<seq<byte>>, i: nat)
    requires i < a.Length
    requires AdjacentSorted(a[..i])
    modifies a
    ensures AdjacentSorted(a[..i + 1])
    ensures multiset(a[..]) == multiset(old(a[..]))
    ensures a[i + 1..] == old(a[i + 1..])
  {
    InsertingStart(a[..], i);
    var j: nat := i;
    while j > 0 && Strcmp(a[j - 1], a[j]) > 0
      invariant Inserting(a[..], i, j)
      invariant multiset(a[..]) == multiset(old(a[..]))
      invariant a[i + 1..] == old(a[i + 1..])
    {
      ghost var s := a[..];
      InsertingSwap(s, i, j);
      SwapKeeps(s, i, j);
      a[j - 1], a[j] := a[j], a[j - 1];
      assert a[..] == s[j - 1 := s[j]][j := s[j - 1]];
      j := j - 1;
    }
    InsertingDone(a[..], i, j);
  }

  /** The first element of a sorted sequence is not greater than any of its elements. */
  lemma SortedHeadIsLeast(s: seq<seq<byte>>, x: seq<byte>)
    requires Sorted(s) && x in s
    ensures Strcmp(s[0], x) <= 0
  {
    var i :| 0 <= i < |s| && s[i] == x;
    if i == 0 {
      StrcmpReflexive(x);
    }
  }

  lemma MultisetTail(a: seq<seq<byte>>, b: seq<seq<byte>>)
    requires a != [] && multiset(a) == multiset(b) && b != [] && a[0] == b[0]
    ensures multiset(a[1..]) == multiset(b[1..])
  {
    assert a == [a[0]] + a[1..] && b == [b[0]] + b[1..];
    calc {
      multiset(a[1..]);
      multiset(a) - multiset{a[0]};
      multiset(b) - multiset{b[0]};
      multiset(b[1..]);
    }
  }

  /**
   * On C strings the sorted order is unique: two sorted permutations of the
   * same names are the same sequence, so the order, and with it the rank of
   * every name, does not depend on how qsort gets there.
   */
  lemma {:induction false} SortedIsUnique(a: seq<seq<byte>>, b: seq<seq<byte>>)
    requires forall x :: x in a ==> IsCString(x)
    requires Sorted(a) && Sorted(b) && multiset(a) == multiset(b)
    ensures a == b
    decreases |a|
  {
    if a != [] {
      SameHead(a, b);
      MultisetTail(a, b);
      assert forall x :: x in a[1..] ==> x in a;
      SortedIsUnique(a[1..], b[1..]);
      assert a == [a[0]] + a[1..] && b == [b[0]] + b[1..];
    }
  }

  /** Two nonempty sorted permutations of the same C strings start with the same name. */
  lemma SameHead(a: seq<seq<byte>>, b: seq<seq<byte>>)
    requires a != [] && forall x :: x in a ==> IsCString(x)
    requires Sorted(a) && Sorted(b) && multiset(a) == multiset(b)
    ensures |b| == |a| && a[0] == b[0]
  {
    assert |b| == |multiset(b)| == |multiset(a)| == |a|;
    assert a[0] in multiset(b) && b[0] in multiset(a);
    SortedHeadIsLeast(b, a[0]);
    SortedHeadIsLeast(a, b[0]);
    StrcmpAntisymmetric(a[0], b[0]);
    StrcmpZeroIff(a[0], b[0]);
  }
}
