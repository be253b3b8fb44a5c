/**
 * The bubble-sort family: an iterative sort with early exit (written
 * three times, as the plain, the "optimized" and the "verbose" sort), and a
 * recursive variant that runs one pass over a prefix and recurses on a
 * shorter prefix.
 *
 * Every variant copies the caller's list and sorts the copy in place, so the
 * input is a `seq` (a value the callee cannot change) and the copy a fresh
 * `array`.
 */
module Sorting {

  /** Ascending order, stated over every pair of positions. */
  predicate Sorted(s: seq<int>) {
    forall p, q :: 0 <= p < q < |s| ==> s[p] <= s[q]
  }

  /** s[0..j] (inclusive) is in ascending order. */
  predicate SortedUpTo(s: seq<int>, j: int)
    requires j < |s|
  {
    forall p, q :: 0 <= p < q <= j ==> s[p] <= s[q]
  }

  /**
   * The positions from m on are in their final place: they are sorted, and
   * no element before them is larger than any of them.
   */
  predicate SuffixPlaced(s: seq<int>, m: int)
    requires 0 <= m <= |s|
  {
    && (forall p, q :: m <= p < q < |s| ==> s[p] <= s[q])
    && (forall p, q :: 0 <= p < m <= q < |s| ==> s[p] <= s[q])
  }

  /** A sorted prefix followed by a placed suffix is sorted as a whole. */
  lemma JoinSorted(s: seq<int>, m: int)
    requires 1 <= m <= |s|
    requires SortedUpTo(s, m - 1) && SuffixPlaced(s, m)
    ensures Sorted(s)
  {
  }

  /** s with the neighbours at j and j + 1 exchanged. */
  function Exchanged(s: seq<int>, j: int): (r: seq<int>)
    requires 0 <= j < |s| - 1
    ensures |r| == |s| && multiset(r) == multiset(s)
    ensures r[j] == s[j + 1] && r[j + 1] == s[j]
    ensures forall k :: 0 <= k < |s| && k != j && k != j + 1 ==> r[k] == s[k]
  {
    s[j := s[j + 1]][j + 1 := s[j]]
  }

  /** The parallel assignment `arr[j], arr[j + 1] = arr[j + 1], arr[j]`. */
  method Swap(a: array<int>, j: int)
    requires 0 <= j < a.Length - 1
    modifies a
    ensures a[..] == Exchanged(old(a[..]), j)
  {
    a[j], a[j + 1] := a[j + 1], a[j];
  }

  /**
   * Two sorted lists holding the same elements are equal: whatever sorts
   * correctly returns exactly what any other correct sort returns, the
   * library `sorted` included.
   */
  lemma {:induction false} SortedPermutationUnique(s: seq<int>, t: seq<int>)
    requires Sorted(s) && Sorted(t) && multiset(s) == multiset(t)
    ensures s == t
    decreases |s|
  {
    assert |t| == |multiset(t)| == |multiset(s)| == |s|;
    if s != [] {
      HeadsAgree(s, t);
      var s', t' := s[1..], t[1..];
      TailStays(s);
      TailStays(t);
      SortedPermutationUnique(s', t');
      assert s == [s[0]] + s' && t == [t[0]] + t';
    }
  }

  lemma HeadsAgree(s: seq<int>, t: seq<int>)
    requires Sorted(s) && Sorted(t) && multiset(s) == multiset(t) && s != []
    ensures t != [] && s[0] == t[0]
  {
    assert s[0] in multiset(t);
    FirstIsLeast(t, s[0]);
    FirstIsLeast(s, t[0]);
  }

  /** Dropping the first element keeps a list sorted and removes it from the multiset. */
  lemma TailStays(s: seq<int>)
    requires Sorted(s) && s != []
    ensures Sorted(s[1..]) && multiset(s[1..]) == multiset(s) - multiset{s[0]}
  {
    TailMultiset(s);
  }

  /** The first element of a sorted sequence is at most any of its elements. */
  lemma FirstIsLeast(s: seq<int>, x: int)
    requires Sorted(s) && x in multiset(s)
    ensures s[0] <= x
  {
    var k :| 0 <= k < |s| && s[k] == x;
  }

  lemma TailMultiset(s: seq<int>)
    requires s != []
    ensures multiset(s[1..]) == multiset(s) - multiset{s[0]}
  {
    assert s == [s[0]] + s[1..];
  }

  // ---------------------------------------------------------------------
  // bubble_sort (and its two copies)
  // ---------------------------------------------------------------------

  /**
   * What holds inside a pass of bubble_sort over s[0..m), at index j, for a
   * pass that started from o: the elements are those of o, the suffix from m
   * stays placed, the largest element scanned so far sits at j, and the pass
   * has swapped nothing exactly when o[0..j] was already in order (in which
   * case nothing has changed).
   */
  ghost predicate SweepInv(o: seq<int>, s: seq<int>, j: int, m: int, swapped: bool)
    requires 0 <= j < m <= |s| == |o|
  {
    && multiset(s) == multiset(o)
    && SuffixPlaced(s, m)
    && (forall k :: 0 <= k <= j ==> s[k] <= s[j])
    && (!swapped ==> s == o)
    && (!swapped <==> SortedUpTo(o, j))
  }

  /** One comparison of the inner loop keeps SweepInv, whether it swaps or not. */
  lemma SweepStep(o: seq<int>, s: seq<int>, j: int, m: int, swapped: bool)
    requires 0 <= j < m - 1 && m <= |s| == |o|
    requires SweepInv(o, s, j, m, swapped)
    ensures s[j] > s[j + 1] ==> SweepInv(o, Exchanged(s, j), j + 1, m, true)
    ensures s[j] <= s[j + 1] ==> SweepInv(o, s, j + 1, m, swapped)
  {
  }

  /**
   * The inner loop of bubble_sort: one pass over a[0..m), swapping a
   * neighbour pair only when the left one is strictly greater. If the
   * positions from m on were in their final place, afterwards those from
   * m - 1 on are. It reports a swap exactly when a[0..m) was out of order,
   * and a pass that reports none changed nothing.
   */
  method Sweep(a: array<int>, m: int) returns (swapped: bool)
    requires 1 <= m <= a.Length
    requires SuffixPlaced(a[..], m)
    modifies a
    ensures SuffixPlaced(a[..], m - 1)
    ensures multiset(a[..]) == multiset(old(a[..]))
    ensures !swapped <==> SortedUpTo(old(a[..]), m - 1)
    ensures !swapped ==> a[..] == old(a[..])
  {
    ghost var start := a[..];
    swapped := false;
    var j := 0;
    while j < m - 1
      invariant 0 <= j <= m - 1
      invariant SweepInv(start, a[..], j, m, swapped)
    {
      swapped := CompareExchange(a, j, swapped, start, m);
      j := j + 1;
    }
  }

  /**
   * One step of the inner loop: exchange a[j] and a[j + 1] when a[j] is
   * strictly greater, and record that a swap happened.
   */
  method CompareExchange(a: array<int>, j: int, swappedBefore: bool, ghost o: seq<int>, ghost m: int)
    returns (swapped: bool)
    requires 0 <= j < m - 1 && m <= a.Length == |o|
    requires SweepInv(o, a[..], j, m, swappedBefore)
    modifies a
    ensures SweepInv(o, a[..], j + 1, m, swapped)
  {
    SweepStep(o, a[..], j, m, swappedBefore);
    swapped := swappedBefore;
    if a[j] > a[j + 1] {
      Swap(a, j);
      swapped := true;
    }
  }

  /**
   * bubble_sort: copies the list, then runs passes over a shrinking prefix
   * and stops after the first pass that swapped nothing. `passes` counts the
   * passes that ran: one for a non-empty list that is already in order.
   */
  method BubbleSort(arr: seq<int>) returns (r: seq<int>, ghost passes: nat)
    ensures Sorted(r) && multiset(r) == multiset(arr) && |r| == |arr|
    ensures passes <= |arr|
    ensures Sorted(arr) ==> r == arr && passes == (if arr == [] then 0 else 1)
  {
    var n := |arr|;
    var a := new int[n](k requires 0 <= k < n => arr[k]);
    assert a[..] == arr;
    passes := 0;
    var i := 0;
    while i < n
      invariant 0 <= i <= n == a.Length && passes == i
      invariant multiset(a[..]) == multiset(arr)
      // after i passes the last i positions hold the largest elements, sorted
      invariant SuffixPlaced(a[..], n - i)
      invariant Sorted(arr) ==> a[..] == arr && i == 0
    {
      var swapped := Sweep(a, n - i);
      passes := passes + 1;
      if !swapped {
        // the early exit: a pass without swaps leaves a sorted list
        JoinSorted(a[..], n - i);
        break;
      }
      i := i + 1;
    }
    r := a[..];
  }

  /**
   * optimized_bubble_sort: the same text as bubble_sort, so it is modelled
   * by that method; by SortedPermutationUnique both return the same list.
   */
  method OptimizedBubbleSort(arr: seq<int>) returns (r: seq<int>)
    ensures Sorted(r) && multiset(r) == multiset(arr) && |r| == |arr|
    ensures Sorted(arr) ==> r == arr
  {
    ghost var passes;
    r, passes := BubbleSort(arr);
  }

  /**
   * bubble_sort_verbose: bubble_sort with a trace printed at every step; the
   * trace is not modelled, and what remains is bubble_sort.
   */
  method BubbleSortVerbose(arr: seq<int>) returns (r: seq<int>)
    ensures Sorted(r) && multiset(r) == multiset(arr) && |r| == |arr|
    ensures Sorted(arr) ==> r == arr
  {
    ghost var passes;
    r, passes := BubbleSort(arr);
  }

  // ---------------------------------------------------------------------
  // bubble_sort_recursive
  // ---------------------------------------------------------------------

  /**
   * Inside one unconditional pass over s[0..n) that started from o, at
   * index i: the range holds the elements o had there, the rest is
   * untouched, and the largest element scanned so far sits at i.
   */
  ghost predicate PassInv(o: seq<int>, s: seq<int>, i: int, n: int)
    requires 0 <= i < n <= |s| == |o|
  {
    && multiset(s[..n]) == multiset(o[..n])
    && s[n..] == o[n..]
    && (forall k :: 0 <= k <= i ==> s[k] <= s[i])
  }

  /** One comparison of the pass keeps PassInv, whether it swaps or not. */
  lemma PassStep(o: seq<int>, s: seq<int>, i: int, n: int)
    requires 0 <= i < n - 1 && n <= |s| == |o|
    requires PassInv(o, s, i, n)
    ensures s[i] > s[i + 1] ==> PassInv(o, Exchanged(s, i), i + 1, n)
    ensures s[i] <= s[i + 1] ==> PassInv(o, s, i + 1, n)
  {
    if s[i] > s[i + 1] {
      assert Exchanged(s, i)[..n] == s[..n][i := s[i + 1]][i + 1 := s[i]];
    }
  }

  /**
   * The loop of bubble_sort_recursive: one pass over a[0..n) that swaps
   * neighbours out of order, carrying the largest element of the range to
   * index n - 1. Nothing at or after n is touched.
   */
  method BubblePass(a: array<int>, n: int)
    requires 1 <= n <= a.Length
    modifies a
    ensures forall k :: 0 <= k < n ==> a[k] <= a[n - 1]
    ensures multiset(a[..n]) == multiset(old(a[..n]))
    ensures a[n..] == old(a[n..])
  {
    ghost var o := a[..];
    var i := 0;
    while i < n - 1
      invariant 0 <= i <= n - 1
      invariant PassInv(o, a[..], i, n)
    {
      PassStep(o, a[..], i, n);
      if a[i] > a[i + 1] {
        Swap(a, i);
      }
      i := i + 1;
    }
  }

  /** Every element of a multiset-equal copy obeys the same upper bound. */
  lemma BoundCarries(s: seq<int>, t: seq<int>, m: int)
    requires multiset(s) == multiset(t)
    requires forall k :: 0 <= k < |t| ==> t[k] <= m
    ensures forall k :: 0 <= k < |s| ==> s[k] <= m
  {
    forall k | 0 <= k < |s| ensures s[k] <= m {
      assert s[k] in multiset(t);
      var l :| 0 <= l < |t| && t[l] == s[k];
    }
  }

  /**
   * The recursion step: a pass put the maximum of mid[0..n) at n - 1, and
   * the recursive call sorted the n - 1 elements before it; then s[0..n) is
   * sorted and holds the same elements as mid[0..n).
   */
  lemma SortedAfterPass(mid: seq<int>, s: seq<int>, n: int)
    requires 2 <= n <= |mid| == |s|
    requires forall k :: 0 <= k < n ==> mid[k] <= mid[n - 1]
    requires Sorted(s[..n - 1]) && multiset(s[..n - 1]) == multiset(mid[..n - 1])
    requires s[n - 1..] == mid[n - 1..]
    ensures Sorted(s[..n]) && multiset(s[..n]) == multiset(mid[..n]) && s[n..] == mid[n..]
  {
    assert s[n - 1] == s[n - 1..][0] == mid[n - 1];
    BoundCarries(s[..n - 1], mid[..n - 1], mid[n - 1]);
    assert s[..n] == s[..n - 1] + [s[n - 1]];
    assert mid[..n] == mid[..n - 1] + [mid[n - 1]];
    assert s[n..] == s[n - 1..][1..];
    assert mid[n..] == mid[n - 1..][1..];
  }

  /**
   * bubble_sort_recursive(arr, n) with n given: sorts a[0..n) in place (no
   * copy is made on this entry) and leaves a[n..] alone. The base case is
   * n == 1, so n must be at least 1 (below it n only decreases and never
   * reaches the base case) and at most the length (beyond it the pass reads
   * past the end of the list).
   */
  method SortPrefix(a: array<int>, n: int)
    requires 1 <= n <= a.Length
    modifies a
    ensures Sorted(a[..n])
    ensures multiset(a[..n]) == multiset(old(a[..n]))
    ensures a[n..] == old(a[n..])
    decreases n
  {
    if n == 1 {
      return;
    }
    BubblePass(a, n);
    ghost var mid := a[..];
    SortPrefix(a, n - 1);
    SortedAfterPass(mid, a[..], n);
  }

  /**
   * bubble_sort_recursive(arr) with n omitted: copies the list and sorts the
   * whole copy. The list must not be empty: for [] the recursion starts at
   * n == 0 and never reaches its base case n == 1.
   */
  method BubbleSortRecursive(arr: seq<int>) returns (r: seq<int>)
    requires |arr| >= 1
    ensures Sorted(r) && multiset(r) == multiset(arr) && |r| == |arr|
  {
    var a := new int[|arr|](k requires 0 <= k < |arr| => arr[k]);
    assert a[..] == arr && arr[..a.Length] == arr;
    SortPrefix(a, a.Length);
    assert a[..a.Length] == a[..];
    r := a[..];
  }

  // ---------------------------------------------------------------------
  // compare_implementations
  // ---------------------------------------------------------------------

  /**
   * All four variants return the same list for every list the recursive
   * one accepts.
   */
  method AllVariantsAgree(arr: seq<int>)
    returns (regular: seq<int>, optimized: seq<int>, verbose: seq<int>, recursive: seq<int>)
    requires |arr| >= 1
    ensures regular == optimized == verbose == recursive
    ensures Sorted(regular) && multiset(regular) == multiset(arr)
  {
    ghost var passes;
    regular, passes := BubbleSort(arr);
    optimized := OptimizedBubbleSort(arr);
    verbose := BubbleSortVerbose(arr);
    recursive := BubbleSortRecursive(arr);
    SortedPermutationUnique(regular, optimized);
    SortedPermutationUnique(regular, verbose);
    SortedPermutationUnique(regular, recursive);
  }

  /**
   * compare_implementations: the plain, optimized and recursive sorts
   * applied to its fixed list return one and the same sorted rearrangement
   * of it.
   */
  method CompareImplementations() returns (regular: seq<int>, optimized: seq<int>, recursive: seq<int>)
    ensures regular == optimized == recursive
    ensures Sorted(regular) && multiset(regular) == multiset([64, 34, 25, 12, 22, 11, 90])
  {
    var testArray := [64, 34, 25, 12, 22, 11, 90];
    ghost var passes;
    regular, passes := BubbleSort(testArray);
    optimized := OptimizedBubbleSort(testArray);
    recursive := BubbleSortRecursive(testArray);
    SortedPermutationUnique(regular, optimized);
    SortedPermutationUnique(regular, recursive);
  }
}
