/** qsort of the guest runtime: an in-place heapsort over any comparator. */
module Heapsort {
  import opened Collections

  predicate Opposed<T>(cmp: (T, T) -> int, x: T, y: T) {
    cmp(x, y) <= 0 <==> cmp(y, x) >= 0
  }

  predicate Distinguishes<T(==)>(cmp: (T, T) -> int, x: T, y: T) {
    cmp(x, y) == 0 ==> x == y
  }

  predicate Chained<T>(cmp: (T, T) -> int, x: T, y: T, z: T) {
    cmp(x, y) >= 0 && cmp(y, z) >= 0 ==> cmp(x, z) >= 0
  }

  /** A C comparator that orders every two values and is transitive; it may call different values equal. */
  ghost predicate TotalPreorder<T(!new)>(cmp: (T, T) -> int) {
    (forall x, y :: Opposed(cmp, x, y)) && (forall x, y, z :: Chained(cmp, x, y, z))
  }

  /** What a comparator must obey. */
  lemma ComparatorLaws<T(!new)>(cmp: (T, T) -> int)
    ensures TotalPreorder(cmp) <==> (forall x, y :: cmp(x, y) <= 0 <==> cmp(y, x) >= 0)
                                    && (forall x, y, z :: cmp(x, y) >= 0 && cmp(y, z) >= 0 ==> cmp(x, z) >= 0)
  {
    if TotalPreorder(cmp) {
      forall x, y ensures cmp(x, y) <= 0 <==> cmp(y, x) >= 0 { assert Opposed(cmp, x, y); }
      forall x, y, z | cmp(x, y) >= 0 && cmp(y, z) >= 0 ensures cmp(x, z) >= 0 { assert Chained(cmp, x, y, z); }
    }
  }

  /** The comparator tells every two values apart. */
  ghost predicate TotalOrder<T(!new)>(cmp: (T, T) -> int) {
    TotalPreorder(cmp) && forall x, y :: Distinguishes(cmp, x, y)
  }

  ghost predicate Sorted<T>(cmp: (T, T) -> int, s: seq<T>) {
    forall i, j :: 0 <= i < j < |s| ==> cmp(s[j], s[i]) >= 0
  }

  function Swap<T>(s: seq<T>, i: nat, j: nat): (t: seq<T>)
    requires i < |s| && j < |s|
    ensures |t| == |s|
  {
    s[i := s[j]][j := s[i]]
  }

  function Parent(c: nat): nat
    requires c > 0
  {
    (c - 1) / 2
  }

  /** The larger child of a root that has one. */
  function LargerChild<T>(cmp: (T, T) -> int, s: seq<T>, root: nat, n: nat): (child: nat)
    requires 2 * root + 1 < n <= |s|
    ensures root < child < n && Parent(child) == root
  {
    var child := 2 * root + 1;
    if child + 1 < n && cmp(s[child], s[child + 1]) < 0 then child + 1 else child
  }

  /** What qsort_sift leaves in the array. */
  function Sift<T>(cmp: (T, T) -> int, s: seq<T>, root: nat, n: nat): (t: seq<T>)
    requires n <= |s|
    ensures |t| == |s|
    decreases n - root
  {
    if 2 * root + 1 >= n then s else
    var child := LargerChild(cmp, s, root, n);
    if cmp(s[root], s[child]) >= 0 then s else Sift(cmp, Swap(s, root, child), child, n)
  }

  /** No child below n with a parent from lo on is larger than its parent, except below `hole`. */
  ghost predicate HeapBut<T>(cmp: (T, T) -> int, s: seq<T>, lo: nat, n: nat, hole: nat)
    requires n <= |s|
  {
    forall c {:trigger s[c]} :: 0 < c < n && lo <= Parent(c) && Parent(c) != hole ==> cmp(s[Parent(c)], s[c]) >= 0
  }

  ghost predicate Heap<T>(cmp: (T, T) -> int, s: seq<T>, lo: nat, n: nat)
    requires n <= |s|
  {
    forall c {:trigger s[c]} :: 0 < c < n && lo <= Parent(c) ==> cmp(s[Parent(c)], s[c]) >= 0
  }

  /** The children of the hole are not larger than the hole's parent. */
  ghost predicate Covered<T>(cmp: (T, T) -> int, s: seq<T>, lo: nat, n: nat, hole: nat)
    requires n <= |s|
  {
    hole > lo && Parent(hole) >= lo ==>
      forall c {:trigger s[c]} :: 0 < c < n && Parent(c) == hole ==> hole < n && cmp(s[Parent(hole)], s[c]) >= 0
  }

  /** The larger child is not smaller than either child. */
  lemma LargerOfBoth<T(!new)>(cmp: (T, T) -> int, s: seq<T>, root: nat, n: nat, c: nat)
    requires TotalPreorder(cmp) && 2 * root + 1 < n <= |s| && 0 < c < n && Parent(c) == root
    ensures cmp(s[LargerChild(cmp, s, root, n)], s[c]) >= 0
  {
    var child := 2 * root + 1;
    assert c == child || c == child + 1;
    assert Opposed(cmp, s[c], s[c]);
    if child + 1 < n { assert Opposed(cmp, s[child], s[child + 1]) && Opposed(cmp, s[child + 1], s[child]); }
  }

  /** One pair after the larger child moved up. */
  lemma SiftPair<T(!new)>(cmp: (T, T) -> int, s: seq<T>, lo: nat, n: nat, root: nat, c: nat)
    requires TotalPreorder(cmp) && n <= |s| && lo <= root && 2 * root + 1 < n
    requires HeapBut(cmp, s, lo, n, root) && Covered(cmp, s, lo, n, root)
    requires cmp(s[root], s[LargerChild(cmp, s, root, n)]) < 0
    requires 0 < c < n && lo <= Parent(c) && Parent(c) != LargerChild(cmp, s, root, n)
    ensures var t := Swap(s, root, LargerChild(cmp, s, root, n)); cmp(t[Parent(c)], t[c]) >= 0
  {
    var child := LargerChild(cmp, s, root, n);
    if c == child {
      assert Opposed(cmp, s[root], s[child]);
    } else if Parent(c) == root {
      LargerOfBoth(cmp, s, root, n, c);
    } else if c == root {
      assert Parent(child) == root;
    }
  }

  /** One round: the larger child moves up and the hole moves to its place. */
  lemma SiftRound<T(!new)>(cmp: (T, T) -> int, s: seq<T>, lo: nat, n: nat, root: nat)
    requires TotalPreorder(cmp) && n <= |s| && lo <= root && 2 * root + 1 < n
    requires HeapBut(cmp, s, lo, n, root) && Covered(cmp, s, lo, n, root)
    requires cmp(s[root], s[LargerChild(cmp, s, root, n)]) < 0
    ensures var child := LargerChild(cmp, s, root, n);
            HeapBut(cmp, Swap(s, root, child), lo, n, child) && Covered(cmp, Swap(s, root, child), lo, n, child)
  {
    var child := LargerChild(cmp, s, root, n);
    var t := Swap(s, root, child);
    forall c | 0 < c < n && lo <= Parent(c) && Parent(c) != child ensures cmp(t[Parent(c)], t[c]) >= 0 {
      SiftPair(cmp, s, lo, n, root, c);
    }
    forall c | 0 < c < n && Parent(c) == child ensures cmp(t[root], t[c]) >= 0 {
      assert t[c] == s[c] && t[root] == s[child];
    }
  }

  /** Where the root is not smaller than its larger child, it fills its hole. */
  lemma SiftStop<T(!new)>(cmp: (T, T) -> int, s: seq<T>, lo: nat, n: nat, root: nat)
    requires TotalPreorder(cmp) && n <= |s| && lo <= root && HeapBut(cmp, s, lo, n, root)
    requires 2 * root + 1 < n ==> cmp(s[root], s[LargerChild(cmp, s, root, n)]) >= 0
    ensures Heap(cmp, s, lo, n)
  {
    forall c | 0 < c < n && lo <= Parent(c) ensures cmp(s[Parent(c)], s[c]) >= 0 {
      if Parent(c) == root {
        LargerOfBoth(cmp, s, root, n, c);
        assert Chained(cmp, s[root], s[LargerChild(cmp, s, root, n)], s[c]);
      }
    }
  }

  /** A sift makes a heap of what is one but for its root. */
  lemma {:induction false} SiftHeap<T(!new)>(cmp: (T, T) -> int, s: seq<T>, lo: nat, n: nat, root: nat)
    requires TotalPreorder(cmp) && n <= |s| && lo <= root
    requires HeapBut(cmp, s, lo, n, root) && Covered(cmp, s, lo, n, root)
    ensures Heap(cmp, Sift(cmp, s, root, n), lo, n)
    decreases n - root
  {
    if 2 * root + 1 < n && cmp(s[root], s[LargerChild(cmp, s, root, n)]) < 0 {
      SiftRound(cmp, s, lo, n, root);
      SiftHeap(cmp, Swap(s, root, LargerChild(cmp, s, root, n)), lo, n, LargerChild(cmp, s, root, n));
    } else {
      SiftStop(cmp, s, lo, n, root);
    }
  }

  lemma SwapPermutes<T>(s: seq<T>, i: nat, j: nat)
    requires i < |s| && j < |s|
    ensures multiset(Swap(s, i, j)) == multiset(s)
  {
  }

  /** A sift permutes the prefix and leaves the rest. */
  lemma {:induction false} SiftPermutes<T>(cmp: (T, T) -> int, s: seq<T>, root: nat, n: nat)
    requires n <= |s|
    ensures var t := Sift(cmp, s, root, n); multiset(t[..n]) == multiset(s[..n]) && t[n..] == s[n..]
    decreases n - root
  {
    if 2 * root + 1 < n {
      var child := LargerChild(cmp, s, root, n);
      if cmp(s[root], s[child]) < 0 {
        var t := Swap(s, root, child);
        assert t[..n] == Swap(s[..n], root, child) && t[n..] == s[n..];
        SwapPermutes(s[..n], root, child);
        SiftPermutes(cmp, t, child, n);
      }
    }
  }

  /** The first loop of qsort, from root i - 1 down to 0. */
  function Build<T>(cmp: (T, T) -> int, s: seq<T>, i: nat): (t: seq<T>)
    ensures |t| == |s|
    decreases i
  {
    if i == 0 then s else Build(cmp, Sift(cmp, s, i - 1, |s|), i - 1)
  }

  lemma BuildRound<T(!new)>(cmp: (T, T) -> int, s: seq<T>, i: nat, t: seq<T>)
    requires TotalPreorder(cmp) && Heap(cmp, s, i + 1, |s|) && t == Sift(cmp, s, i, |s|)
    ensures Heap(cmp, t, i, |s|) && multiset(t) == multiset(s)
  {
    SiftHeap(cmp, s, i, |s|, i);
    SiftPermutesAll(cmp, s, i);
  }

  lemma SiftPermutesAll<T>(cmp: (T, T) -> int, s: seq<T>, i: nat)
    ensures multiset(Sift(cmp, s, i, |s|)) == multiset(s)
  {
    var t := Sift(cmp, s, i, |s|);
    SiftPermutes(cmp, s, i, |s|);
    assert t[..|s|] == t && s[..|s|] == s;
  }

  lemma {:induction false} BuildHeap<T(!new)>(cmp: (T, T) -> int, s: seq<T>, i: nat)
    requires TotalPreorder(cmp) && Heap(cmp, s, i, |s|)
    ensures Heap(cmp, Build(cmp, s, i), 0, |s|) && multiset(Build(cmp, s, i)) == multiset(s)
    decreases i
  {
    if i > 0 {
      var t := Sift(cmp, s, i - 1, |s|);
      BuildRound(cmp, s, i - 1, t);
      BuildHeap(cmp, t, i - 1);
    }
  }

  /** The second loop of qsort, from position i down to 1. */
  function Extract<T>(cmp: (T, T) -> int, s: seq<T>, i: nat): (t: seq<T>)
    requires i < |s|
    ensures |t| == |s|
    decreases i
  {
    if i == 0 then s else Extract(cmp, Sift(cmp, Swap(s, 0, i), 0, i), i - 1)
  }

  /** The largest element of a heap is at its root. */
  lemma {:induction false} HeapRoot<T(!new)>(cmp: (T, T) -> int, s: seq<T>, n: nat, k: nat)
    requires TotalPreorder(cmp) && k < n <= |s| && Heap(cmp, s, 0, n)
    ensures cmp(s[0], s[k]) >= 0
    decreases k
  {
    if k == 0 {
      assert Opposed(cmp, s[0], s[0]);
    } else {
      HeapRoot(cmp, s, n, Parent(k));
      assert cmp(s[Parent(k)], s[k]) >= 0 && Chained(cmp, s[0], s[Parent(k)], s[k]);
    }
  }

  /** From position n on the array is final: sorted, and nothing before it is larger. */
  ghost predicate Final<T>(cmp: (T, T) -> int, s: seq<T>, n: nat)
    requires n <= |s|
  {
    && Sorted(cmp, s[n..])
    && (forall x, y :: x in s[..n] && y in s[n..] ==> cmp(y, x) >= 0)
  }

  /** A permutation of the prefix keeps the rest final. */
  lemma FinalPermuted<T>(cmp: (T, T) -> int, s: seq<T>, t: seq<T>, n: nat)
    requires n <= |s| == |t| && Final(cmp, s, n) && t[n..] == s[n..] && multiset(t[..n]) == multiset(s[..n])
    ensures Final(cmp, t, n)
  {
    forall x, y | x in t[..n] && y in t[n..] ensures cmp(y, x) >= 0 {
      assert x in multiset(t[..n]);
      assert x in s[..n];
    }
  }

  /** Swapping the root of the heap to position n makes position n final. */
  lemma RootIsFinal<T(!new)>(cmp: (T, T) -> int, s: seq<T>, n: nat)
    requires TotalPreorder(cmp) && 0 < n < |s| && Heap(cmp, s, 0, n + 1) && Final(cmp, s, n + 1)
    ensures Final(cmp, Swap(s, 0, n), n) && multiset(Swap(s, 0, n)) == multiset(s)
  {
    var t := Swap(s, 0, n);
    SwapPermutes(s, 0, n);
    assert t[n] == s[0] && t[n..] == [s[0]] + s[n + 1..];
    assert s[0] == s[..n + 1][0];
    forall x, y | x in t[..n] && y in t[n..] ensures cmp(y, x) >= 0 {
      var k :| 0 <= k < n && t[k] == x;
      HeapRoot(cmp, s, n + 1, if k == 0 then n else k);
      assert x == s[..n + 1][if k == 0 then n else k];
    }
  }

  lemma ExtractRound<T(!new)>(cmp: (T, T) -> int, s: seq<T>, i: nat, u: seq<T>)
    requires TotalPreorder(cmp) && 0 < i < |s| && Heap(cmp, s, 0, i + 1) && Final(cmp, s, i + 1)
    requires u == Sift(cmp, Swap(s, 0, i), 0, i)
    ensures Heap(cmp, u, 0, i) && Final(cmp, u, i) && multiset(u) == multiset(s)
  {
    var t := Swap(s, 0, i);
    RootIsFinal(cmp, s, i);
    SiftHeap(cmp, t, 0, i, 0);
    SiftPermutes(cmp, t, 0, i);
    FinalPermuted(cmp, t, u, i);
    PrefixPermuted(t, u, i);
  }

  lemma PrefixPermuted<T>(s: seq<T>, t: seq<T>, n: nat)
    requires n <= |s| == |t| && t[n..] == s[n..] && multiset(t[..n]) == multiset(s[..n])
    ensures multiset(t) == multiset(s)
  {
    assert s == s[..n] + s[n..] && t == t[..n] + t[n..];
  }

  lemma AllFinal<T>(cmp: (T, T) -> int, s: seq<T>)
    requires s != [] && Final(cmp, s, 1)
    ensures Sorted(cmp, s)
  {
    assert s[0] in s[..1];
    forall i, j | 0 <= i < j < |s| ensures cmp(s[j], s[i]) >= 0 {
      assert s[j] == s[1..][j - 1];
      if i > 0 { assert s[i] == s[1..][i - 1]; }
    }
  }

  lemma {:induction false} ExtractSorts<T(!new)>(cmp: (T, T) -> int, s: seq<T>, i: nat)
    requires TotalPreorder(cmp) && i < |s| && Heap(cmp, s, 0, i + 1) && Final(cmp, s, i + 1)
    ensures Sorted(cmp, Extract(cmp, s, i)) && multiset(Extract(cmp, s, i)) == multiset(s)
    decreases i
  {
    if i == 0 {
      AllFinal(cmp, s);
    } else {
      var u := Sift(cmp, Swap(s, 0, i), 0, i);
      ExtractRound(cmp, s, i, u);
      ExtractSorts(cmp, u, i - 1);
    }
  }

  function HeapSorted<T>(cmp: (T, T) -> int, s: seq<T>): seq<T> {
    if |s| < 2 then s else Extract(cmp, Build(cmp, s, |s| / 2), |s| - 1)
  }

  /** The upper half has no children. */
  lemma UpperHalf<T>(cmp: (T, T) -> int, s: seq<T>)
    ensures Heap(cmp, s, |s| / 2, |s|)
  {
    forall c: nat | 0 < c < |s| ensures Parent(c) < |s| / 2 {}
  }

  lemma LoopsSort<T(!new)>(cmp: (T, T) -> int, s: seq<T>, half: nat, last: nat)
    requires TotalPreorder(cmp) && Heap(cmp, s, half, |s|) && last + 1 == |s|
    ensures var t := Extract(cmp, Build(cmp, s, half), last); Sorted(cmp, t) && multiset(t) == multiset(s)
  {
    BuildHeap(cmp, s, half);
    var t := Build(cmp, s, half);
    assert t[|s|..] == [];
    ExtractSorts(cmp, t, last);
  }

  /** For every total preorder: a sorted permutation of the input. */
  lemma HeapSortSorts<T(!new)>(cmp: (T, T) -> int, s: seq<T>)
    requires TotalPreorder(cmp)
    ensures Sorted(cmp, HeapSorted(cmp, s)) && multiset(HeapSorted(cmp, s)) == multiset(s)
  {
    if |s| >= 2 {
      UpperHalf(cmp, s);
      LoopsSort(cmp, s, |s| / 2, |s| - 1);
    }
  }

  /** Under a total order the largest elements of two arrangements agree. */
  lemma LargestAgree<T(!new)>(cmp: (T, T) -> int, s: seq<T>, t: seq<T>)
    requires TotalOrder(cmp) && Sorted(cmp, s) && Sorted(cmp, t) && multiset(s) == multiset(t)
    requires |s| == |t| > 0
    ensures s[|s| - 1] == t[|s| - 1]
  {
    var n := |s| - 1;
    assert s[n] in multiset(t) && t[n] in multiset(s);
    var i :| 0 <= i <= n && t[i] == s[n];
    var j :| 0 <= j <= n && s[j] == t[n];
    if i < n && j < n {
      assert cmp(t[n], t[i]) >= 0 && cmp(s[n], s[j]) >= 0;
      assert Opposed(cmp, s[n], t[n]) && Opposed(cmp, t[n], s[n]);
      assert cmp(s[n], t[n]) == 0 && Distinguishes(cmp, s[n], t[n]);
    }
  }

  lemma WithoutLast<T>(s: seq<T>, t: seq<T>)
    requires multiset(s) == multiset(t) && |s| == |t| > 0 && s[|s| - 1] == t[|t| - 1]
    ensures multiset(s[..|s| - 1]) == multiset(t[..|t| - 1])
  {
    LastOut(s);
    LastOut(t);
  }

  lemma LastOut<T>(s: seq<T>)
    requires s != []
    ensures multiset(s[..|s| - 1]) == multiset(s) - multiset{s[|s| - 1]}
  {
    assert s == s[..|s| - 1] + [s[|s| - 1]];
  }

  /** Under a total order there is only one sorted arrangement. */
  lemma {:induction false} SortedUnique<T(!new)>(cmp: (T, T) -> int, s: seq<T>, t: seq<T>)
    requires TotalOrder(cmp) && Sorted(cmp, s) && Sorted(cmp, t) && multiset(s) == multiset(t)
    ensures s == t
    decreases |s|
  {
    SameLength(s, t);
    if s != [] {
      var n := |s| - 1;
      LargestAgree(cmp, s, t);
      WithoutLast(s, t);
      SortedUnique(cmp, s[..n], t[..n]);
      assert s == s[..n] + [s[n]] && t == t[..n] + [t[n]];
    }
  }

  /** So the result depends only on which elements came in, not on their order. */
  lemma SortIgnoresOrder<T(!new)>(cmp: (T, T) -> int, s: seq<T>, t: seq<T>)
    requires TotalOrder(cmp) && multiset(s) == multiset(t)
    ensures HeapSorted(cmp, s) == HeapSorted(cmp, t)
  {
    HeapSortSorts(cmp, s);
    HeapSortSorts(cmp, t);
    SortedUnique(cmp, HeapSorted(cmp, s), HeapSorted(cmp, t));
  }

  /** qsort_swap. */
  method SwapElements<T>(base: array<T>, i: nat, j: nat)
    requires i < base.Length && j < base.Length
    modifies base
    ensures base[..] == Swap(old(base[..]), i, j)
  {
    base[i], base[j] := base[j], base[i];
  }

  /** qsort_sift. */
  method SiftInPlace<T>(base: array<T>, root: nat, n: nat, cmp: (T, T) -> int)
    requires n <= base.Length
    modifies base
    ensures base[..] == Sift(cmp, old(base[..]), root, n)
  {
    ghost var s := base[..];
    var hole := root;
    while true
      invariant base[..] == s && Sift(cmp, s, hole, n) == Sift(cmp, old(base[..]), root, n)
      decreases n - hole
    {
      var child := 2 * hole + 1;
      if child >= n { return; }
      if child + 1 < n && cmp(base[child], base[child + 1]) < 0 { child := child + 1; }
      assert base[child] == s[child] && base[hole] == s[hole] && child == LargerChild(cmp, s, hole, n);
      if cmp(base[hole], base[child]) >= 0 { return; }
      SwapElements(base, hole, child);
      s := Swap(s, hole, child);
      hole := child;
    }
  }

  /** The first loop of qsort. */
  method BuildInPlace<T>(base: array<T>, cmp: (T, T) -> int)
    modifies base
    ensures base[..] == Build(cmp, old(base[..]), base.Length / 2)
  {
    ghost var s := base[..];
    for i := base.Length / 2 downto 0
      invariant base[..] == s && Build(cmp, s, i) == Build(cmp, old(base[..]), base.Length / 2)
    {
      SiftInPlace(base, i, base.Length, cmp);
      BuildNext(cmp, s, i);
      s := Sift(cmp, s, i, |s|);
    }
  }

  lemma BuildNext<T>(cmp: (T, T) -> int, s: seq<T>, i: nat)
    ensures Build(cmp, s, i + 1) == Build(cmp, Sift(cmp, s, i, |s|), i)
  {
  }

  /** The second loop of qsort. */
  method ExtractInPlace<T>(base: array<T>, cmp: (T, T) -> int)
    requires base.Length > 0
    modifies base
    ensures base[..] == Extract(cmp, old(base[..]), base.Length - 1)
  {
    ghost var s := base[..];
    for i := base.Length - 1 downto 0
      invariant base[..] == s && Extract(cmp, s, i) == Extract(cmp, old(base[..]), base.Length - 1)
    {
      SwapElements(base, 0, i + 1);
      SiftInPlace(base, 0, i + 1, cmp);
      s := Sift(cmp, Swap(s, 0, i + 1), 0, i + 1);
    }
  }

  /** qsort, on whole elements. */
  method Qsort<T(!new)>(base: array<T>, cmp: (T, T) -> int)
    modifies base
    ensures base[..] == HeapSorted(cmp, old(base[..]))
    ensures TotalPreorder(cmp) ==> Sorted(cmp, base[..]) && multiset(base[..]) == multiset(old(base[..]))
    ensures TotalPreorder(cmp) ==> forall i, j :: 0 <= i < j < base.Length ==> cmp(base[j], base[i]) >= 0
  {
    if TotalPreorder(cmp) { HeapSortSorts(cmp, base[..]); }
    if base.Length < 2 { return; }
    BuildInPlace(base, cmp);
    ExtractInPlace(base, cmp);
  }
}
