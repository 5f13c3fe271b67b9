/**
 The merge sort of the fourth challenge, generic in the element type and the
 sort key: `merge` takes from the left run on equal keys, which makes the sort
 stable, and the sorted, stable permutation of a sequence is unique, so the sort
 agrees with any other stable sort by the same key.
 */
module Sorting {

  /** Keys never decrease from one element to the next. */
  predicate SortedBy<T(!new)>(s: seq<T>, key: T -> real) {
    forall i :: 0 < i < |s| ==> key(s[i - 1]) <= key(s[i])
  }

  /** The elements whose key is `k`, in their original order. */
  function FilterKey<T(!new)>(s: seq<T>, key: T -> real, k: real): seq<T> {
    if |s| == 0 then []
    else (if key(s[0]) == k then [s[0]] else []) + FilterKey(s[1..], key, k)
  }

  // ---------------------------------------------------------------------------
  // Sequence helpers
  // ---------------------------------------------------------------------------

  lemma Assoc<T>(a: seq<T>, b: seq<T>, c: seq<T>)
    ensures a + (b + c) == (a + b) + c
  {
  }

  lemma ConsMultiset<T>(x: T, s: seq<T>)
    ensures multiset([x] + s) == multiset{x} + multiset(s)
  {
  }

  /** `fm = h + (fl + frr)` and `fr = h + frr` give `fm = fl + fr` when `fl` or `h` is empty. */
  lemma Interleave<T>(fm: seq<T>, fl: seq<T>, fr: seq<T>, frr: seq<T>, h: seq<T>)
    requires fm == h + (fl + frr) && fr == h + frr && (fl == [] || h == [])
    ensures fm == fl + fr
  {
    if fl == [] {
      assert fm == h + frr;
      assert fl + fr == fr;
    } else {
      assert fm == fl + frr;
    }
  }

  lemma SortedDrop<T(!new)>(s: seq<T>, key: T -> real, i: nat)
    requires SortedBy(s, key) && i <= |s|
    ensures SortedBy(s[i..], key)
  {
    forall m | 0 < m < |s| - i ensures key(s[i..][m - 1]) <= key(s[i..][m]) {
      assert s[i..][m - 1] == s[i + m - 1] && s[i..][m] == s[i + m];
    }
  }

  lemma SortedTail<T(!new)>(s: seq<T>, key: T -> real)
    requires SortedBy(s, key) && |s| > 0
    ensures SortedBy(s[1..], key)
  {
    SortedDrop(s, key, 1);
  }

  /** In a sorted sequence every key is at least the first one. */
  lemma {:induction false} HeadLeast<T(!new)>(s: seq<T>, key: T -> real, i: nat)
    requires SortedBy(s, key) && i < |s|
    ensures key(s[0]) <= key(s[i])
  {
    if i > 0 {
      HeadLeast(s, key, i - 1);
    }
  }

  /** Sorted in the adjacent sense means sorted between any two positions. */
  lemma SortedPairwise<T(!new)>(s: seq<T>, key: T -> real)
    requires SortedBy(s, key)
    ensures forall i, j :: 0 <= i < j < |s| ==> key(s[i]) <= key(s[j])
  {
    forall i, j | 0 <= i < j < |s| ensures key(s[i]) <= key(s[j]) {
      SortedDrop(s, key, i);
      HeadLeast(s[i..], key, j - i);
      assert s[i..][0] == s[i] && s[i..][j - i] == s[j];
    }
  }

  // ---------------------------------------------------------------------------
  // Filtering by key
  // ---------------------------------------------------------------------------

  lemma {:induction false} FilterKeyMembers<T(!new)>(s: seq<T>, key: T -> real, k: real, x: T)
    ensures x in FilterKey(s, key, k) <==> x in s && key(x) == k
  {
    if |s| > 0 {
      FilterKeyMembers(s[1..], key, k, x);
      assert s == [s[0]] + s[1..];
    }
  }

  /** Filtering distributes over a leading element. */
  lemma FilterCons<T(!new)>(x: T, rest: seq<T>, key: T -> real, k: real)
    ensures FilterKey([x] + rest, key, k) == (if key(x) == k then [x] else []) + FilterKey(rest, key, k)
  {
    assert ([x] + rest)[1..] == rest;
  }

  /** Filtering distributes over concatenation. */
  lemma {:induction false} FilterAppend<T(!new)>(a: seq<T>, b: seq<T>, key: T -> real, k: real)
    ensures FilterKey(a + b, key, k) == FilterKey(a, key, k) + FilterKey(b, key, k)
  {
    if |a| == 0 {
      assert a + b == b;
    } else {
      FilterAppend(a[1..], b, key, k);
      assert a + b == [a[0]] + (a[1..] + b);
      FilterCons(a[0], a[1..] + b, key, k);
      assert a == [a[0]] + a[1..];
      FilterCons(a[0], a[1..], key, k);
      var h := if key(a[0]) == k then [a[0]] else [];
      Assoc(h, FilterKey(a[1..], key, k), FilterKey(b, key, k));
    }
  }

  /** In a sorted run whose head key exceeds `k`, no element has key `k`. */
  lemma LeadingKeyAbsent<T(!new)>(s: seq<T>, key: T -> real, k: real)
    requires SortedBy(s, key) && |s| > 0 && key(s[0]) > k
    ensures FilterKey(s, key, k) == []
  {
    if FilterKey(s, key, k) != [] {
      var x := FilterKey(s, key, k)[0];
      FilterKeyMembers(s, key, k, x);
      var i :| 0 <= i < |s| && s[i] == x;
      HeadLeast(s, key, i);
    }
  }

  // ---------------------------------------------------------------------------
  // merge
  // ---------------------------------------------------------------------------

  /**
   `merge`: while both runs are non-empty take the head with the smaller key,
   the left one on a tie, then append what is left of either run.
   */
  function Merge<T(!new)>(l: seq<T>, r: seq<T>, key: T -> real): (m: seq<T>)
    ensures |m| == |l| + |r|
    decreases |l| + |r|
  {
    if |l| == 0 then r
    else if |r| == 0 then l
    else if key(l[0]) <= key(r[0]) then [l[0]] + Merge(l[1..], r, key)
    else [r[0]] + Merge(l, r[1..], key)
  }

  lemma MergeTakesLeft<T(!new)>(l: seq<T>, r: seq<T>, key: T -> real)
    requires |l| > 0 && |r| > 0 && key(l[0]) <= key(r[0])
    ensures Merge(l, r, key) == [l[0]] + Merge(l[1..], r, key)
  {
  }

  lemma MergeTakesRight<T(!new)>(l: seq<T>, r: seq<T>, key: T -> real)
    requires |l| > 0 && |r| > 0 && key(l[0]) > key(r[0])
    ensures Merge(l, r, key) == [r[0]] + Merge(l, r[1..], key)
  {
  }

  lemma MergeRemainder<T(!new)>(l: seq<T>, r: seq<T>, key: T -> real)
    requires |l| == 0 || |r| == 0
    ensures Merge(l, r, key) == l + r
  {
    if |l| == 0 { assert l + r == r; } else { assert l + r == l; }
  }

  /** The head of a merge is the head of one of the runs. */
  lemma MergeHead<T(!new)>(l: seq<T>, r: seq<T>, key: T -> real)
    requires |l| + |r| > 0
    ensures (|l| > 0 && Merge(l, r, key)[0] == l[0]) || (|r| > 0 && Merge(l, r, key)[0] == r[0])
  {
  }

  /** `merge` is a permutation of the two runs together. */
  lemma {:induction false} MergePermutes<T(!new)>(l: seq<T>, r: seq<T>, key: T -> real)
    ensures multiset(Merge(l, r, key)) == multiset(l) + multiset(r)
    decreases |l| + |r|
  {
    if |l| == 0 {
      assert l + r == r;
    } else if |r| == 0 {
      assert l + r == l;
    } else if key(l[0]) <= key(r[0]) {
      MergePermutes(l[1..], r, key);
      MergeTakesLeft(l, r, key);
      ConsMultiset(l[0], Merge(l[1..], r, key));
      assert l == [l[0]] + l[1..];
      ConsMultiset(l[0], l[1..]);
    } else {
      MergePermutes(l, r[1..], key);
      MergeTakesRight(l, r, key);
      ConsMultiset(r[0], Merge(l, r[1..], key));
      assert r == [r[0]] + r[1..];
      ConsMultiset(r[0], r[1..]);
    }
  }

  /** A sorted run stays sorted under a head whose key is at most the run's first key. */
  lemma SortedCons<T(!new)>(h: T, rest: seq<T>, key: T -> real)
    requires SortedBy(rest, key) && (|rest| > 0 ==> key(h) <= key(rest[0]))
    ensures SortedBy([h] + rest, key)
  {
    var m := [h] + rest;
    forall i | 0 < i < |m| ensures key(m[i - 1]) <= key(m[i]) {
      assert m[i] == rest[i - 1];
      if i > 1 { assert m[i - 1] == rest[i - 2]; }
    }
  }

  /** `merge` of two sorted runs is sorted. */
  lemma {:induction false} MergeSorted<T(!new)>(l: seq<T>, r: seq<T>, key: T -> real)
    requires SortedBy(l, key) && SortedBy(r, key)
    ensures SortedBy(Merge(l, r, key), key)
    decreases |l| + |r|
  {
    if |l| > 0 && |r| > 0 {
      if key(l[0]) <= key(r[0]) {
        SortedTail(l, key);
        MergeSorted(l[1..], r, key);
        MergeTakesLeft(l, r, key);
        MergeHead(l[1..], r, key);
        SortedCons(l[0], Merge(l[1..], r, key), key);
      } else {
        SortedTail(r, key);
        MergeSorted(l, r[1..], key);
        MergeTakesRight(l, r, key);
        MergeHead(l, r[1..], key);
        SortedCons(r[0], Merge(l, r[1..], key), key);
      }
    } else {
      MergeRemainder(l, r, key);
      assert Merge(l, r, key) == (if |l| == 0 then r else l);
    }
  }

  /**
   Stability of `merge`: within every key the merged run lists the left run's
   elements, in order, before the right run's.
   */
  lemma {:induction false} MergeStable<T(!new)>(l: seq<T>, r: seq<T>, key: T -> real, k: real)
    requires SortedBy(l, key) && SortedBy(r, key)
    ensures FilterKey(Merge(l, r, key), key, k) == FilterKey(l, key, k) + FilterKey(r, key, k)
    decreases |l| + |r|
  {
    if |l| == 0 {
      assert FilterKey(l, key, k) == [];
    } else if |r| == 0 {
      assert FilterKey(r, key, k) == [];
    } else if key(l[0]) <= key(r[0]) {
      SortedTail(l, key);
      MergeStable(l[1..], r, key, k);
      MergeStableLeft(l, r, key, k);
    } else {
      SortedTail(r, key);
      MergeStable(l, r[1..], key, k);
      if key(r[0]) == k {
        LeadingKeyAbsent(l, key, k);
      }
      MergeStableRight(l, r, key, k);
    }
  }

  /** The step of stability where `merge` takes the head of the left run. */
  lemma MergeStableLeft<T(!new)>(l: seq<T>, r: seq<T>, key: T -> real, k: real)
    requires |l| > 0 && |r| > 0 && key(l[0]) <= key(r[0])
    requires FilterKey(Merge(l[1..], r, key), key, k) == FilterKey(l[1..], key, k) + FilterKey(r, key, k)
    ensures FilterKey(Merge(l, r, key), key, k) == FilterKey(l, key, k) + FilterKey(r, key, k)
  {
    var h := if key(l[0]) == k then [l[0]] else [];
    MergeTakesLeft(l, r, key);
    FilterCons(l[0], Merge(l[1..], r, key), key, k);
    assert l == [l[0]] + l[1..];
    FilterCons(l[0], l[1..], key, k);
    Assoc(h, FilterKey(l[1..], key, k), FilterKey(r, key, k));
  }

  /** The step of stability where `merge` takes the head of the right run, whose key is below the left head's. */
  lemma MergeStableRight<T(!new)>(l: seq<T>, r: seq<T>, key: T -> real, k: real)
    requires |l| > 0 && |r| > 0 && key(l[0]) > key(r[0])
    requires FilterKey(l, key, k) == [] || key(r[0]) != k
    requires FilterKey(Merge(l, r[1..], key), key, k) == FilterKey(l, key, k) + FilterKey(r[1..], key, k)
    ensures FilterKey(Merge(l, r, key), key, k) == FilterKey(l, key, k) + FilterKey(r, key, k)
  {
    var h := if key(r[0]) == k then [r[0]] else [];
    MergeTakesRight(l, r, key);
    FilterCons(r[0], Merge(l, r[1..], key), key, k);
    assert r == [r[0]] + r[1..];
    FilterCons(r[0], r[1..], key, k);
    Interleave(FilterKey(Merge(l, r, key), key, k), FilterKey(l, key, k), FilterKey(r, key, k),
               FilterKey(r[1..], key, k), h);
  }

  /** The loop of `merge` with its two cursors, producing exactly `Merge`. */
  method MergeLoop<T(!new)>(l: seq<T>, r: seq<T>, key: T -> real) returns (result: seq<T>)
    ensures |result| == |l| + |r|
    ensures result == Merge(l, r, key)
  {
    result := [];
    var i, j := 0, 0;
    while i < |l| && j < |r|
      invariant 0 <= i <= |l| && 0 <= j <= |r|
      invariant result + Merge(l[i..], r[j..], key) == Merge(l, r, key)
      decreases |l| - i + |r| - j
    {
      if key(l[i]) <= key(r[j]) {
        assert l[i..][1..] == l[i + 1..];
        MergeTakesLeft(l[i..], r[j..], key);
        Assoc(result, [l[i]], Merge(l[i + 1..], r[j..], key));
        result := result + [l[i]];
        i := i + 1;
      } else {
        assert r[j..][1..] == r[j + 1..];
        MergeTakesRight(l[i..], r[j..], key);
        Assoc(result, [r[j]], Merge(l[i..], r[j + 1..], key));
        result := result + [r[j]];
        j := j + 1;
      }
    }
    MergeRemainder(l[i..], r[j..], key);
    Assoc(result, l[i..], r[j..]);
    result := result + l[i..];
    result := result + r[j..];
  }

  // ---------------------------------------------------------------------------
  // merge_sort
  // ---------------------------------------------------------------------------

  /** `merge_sort`: a run of length at most one is returned unchanged; otherwise halve at `len // 2`. */
  function MergeSort<T(!new)>(s: seq<T>, key: T -> real): (t: seq<T>)
    ensures |t| == |s|
    ensures multiset(t) == multiset(s)
    ensures SortedBy(t, key)
    ensures forall k :: FilterKey(t, key, k) == FilterKey(s, key, k)
    ensures |s| <= 1 ==> t == s
    decreases |s|
  {
    if |s| <= 1 then s
    else
      var mid := |s| / 2;
      assert s == s[..mid] + s[mid..];
      var left, right := MergeSort(s[..mid], key), MergeSort(s[mid..], key);
      MergeSorted(left, right, key);
      MergePermutes(left, right, key);
      forall k ensures FilterKey(Merge(left, right, key), key, k) == FilterKey(s, key, k) {
        FilterAppend(s[..mid], s[mid..], key, k);
        MergeStable(left, right, key, k);
      }
      Merge(left, right, key)
  }

  /**
   Two sorted sequences with the same elements in the same order within every
   key are equal: the stable sort by a key is unique.
   */
  lemma {:induction false} StableSortUnique<T(!new)>(a: seq<T>, b: seq<T>, key: T -> real)
    requires SortedBy(a, key) && SortedBy(b, key)
    requires forall k :: FilterKey(a, key, k) == FilterKey(b, key, k)
    ensures a == b
    decreases |a|
  {
    if |a| > 0 && |b| > 0 {
      var ka := key(a[0]);
      assert FilterKey(a, key, ka) == FilterKey(b, key, ka);
      assert FilterKey(a, key, key(b[0])) == FilterKey(b, key, key(b[0]));
      HeadsAgree(a, b, key);
      assert a == [a[0]] + a[1..] && b == [b[0]] + b[1..];
      forall k ensures FilterKey(a[1..], key, k) == FilterKey(b[1..], key, k) {
        var h := if ka == k then [a[0]] else [];
        FilterCons(a[0], a[1..], key, k);
        FilterCons(b[0], b[1..], key, k);
        assert FilterKey(a[1..], key, k) == FilterKey(a, key, k)[|h|..];
        assert FilterKey(b[1..], key, k) == FilterKey(b, key, k)[|h|..];
      }
      SortedTail(a, key);
      SortedTail(b, key);
      StableSortUnique(a[1..], b[1..], key);
    } else if |a| + |b| > 0 {
      var x := if |a| > 0 then a[0] else b[0];
      FilterKeyMembers(a, key, key(x), x);
      FilterKeyMembers(b, key, key(x), x);
    }
  }

  /** Two sorted sequences with equal per-key filters start with the same element. */
  lemma HeadsAgree<T(!new)>(a: seq<T>, b: seq<T>, key: T -> real)
    requires SortedBy(a, key) && SortedBy(b, key) && |a| > 0 && |b| > 0
    requires FilterKey(a, key, key(a[0])) == FilterKey(b, key, key(a[0]))
    requires FilterKey(a, key, key(b[0])) == FilterKey(b, key, key(b[0]))
    ensures a[0] == b[0]
  {
    var ka, kb := key(a[0]), key(b[0]);
    FilterKeyMembers(b, key, kb, b[0]);
    FilterKeyMembers(a, key, kb, b[0]);
    var i :| 0 <= i < |a| && a[i] == b[0];
    HeadLeast(a, key, i);
    FilterKeyMembers(a, key, ka, a[0]);
    FilterKeyMembers(b, key, ka, a[0]);
    var j :| 0 <= j < |b| && b[j] == a[0];
    HeadLeast(b, key, j);
    assert ka == kb;
    assert a == [a[0]] + a[1..] && b == [b[0]] + b[1..];
    FilterCons(a[0], a[1..], key, ka);
    FilterCons(b[0], b[1..], key, ka);
    assert FilterKey(a, key, ka)[0] == a[0];
    assert FilterKey(b, key, ka)[0] == b[0];
  }

  /** Any sorted sequence that keeps every key's elements in input order is the merge sort of the input. */
  lemma StableSortIsMergeSort<T(!new)>(s: seq<T>, t: seq<T>, key: T -> real)
    requires SortedBy(t, key)
    requires forall k :: FilterKey(t, key, k) == FilterKey(s, key, k)
    ensures t == MergeSort(s, key)
  {
    StableSortUnique(t, MergeSort(s, key), key);
  }
}
