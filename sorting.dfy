/** The two numpy sorting primitives the peak ranking relies on: `np.sort` (ascending
    values) and `np.argsort` (the indices that would sort the keys ascending), with
    the order statistics the ranking reads off them. */
module Sorting {

  predicate Ascending(s: seq<real>)
  {
    forall i, j :: 0 <= i < j < |s| ==> s[i] <= s[j]
  }

  // ---------------------------------------------------------------------------
  // np.sort

  /** Inserts `x` before the first element that is at least `x`. */
  function Insert(x: real, s: seq<real>): (r: seq<real>)
    ensures |r| == |s| + 1
    decreases |s|
  {
    if |s| == 0 || x <= s[0] then [x] + s else [s[0]] + Insert(x, s[1..])
  }

  /** `np.sort` of a one-dimensional array. */
  function Sort(s: seq<real>): (r: seq<real>)
    ensures |r| == |s|
    decreases |s|
  {
    if |s| == 0 then [] else Insert(s[0], Sort(s[1..]))
  }

  /** A bound below `x` and below all of `s` stays below all of `Insert(x, s)`. */
  lemma {:induction false} InsertBounded(x: real, s: seq<real>, lo: real)
    requires lo <= x && forall i :: 0 <= i < |s| ==> lo <= s[i]
    ensures forall i :: 0 <= i < |Insert(x, s)| ==> lo <= Insert(x, s)[i]
    decreases |s|
  {
    if |s| > 0 && x > s[0] {
      InsertBounded(x, s[1..], lo);
    }
  }

  lemma ConsAscending(a: real, t: seq<real>)
    requires Ascending(t) && forall i :: 0 <= i < |t| ==> a <= t[i]
    ensures Ascending([a] + t)
  {
  }

  lemma {:induction false} InsertAscending(x: real, s: seq<real>)
    requires Ascending(s)
    ensures Ascending(Insert(x, s))
    decreases |s|
  {
    if |s| == 0 || x <= s[0] {
      ConsAscending(x, s);
    } else {
      InsertAscending(x, s[1..]);
      InsertBounded(x, s[1..], s[0]);
      ConsAscending(s[0], Insert(x, s[1..]));
    }
  }

  lemma {:induction false} InsertMultiset(x: real, s: seq<real>)
    ensures multiset(Insert(x, s)) == multiset(s) + multiset{x}
    decreases |s|
  {
    if |s| > 0 && x > s[0] {
      InsertMultiset(x, s[1..]);
      assert s == [s[0]] + s[1..];
    }
  }

  /** `np.sort` returns its input in ascending order. */
  lemma {:induction false} SortAscending(s: seq<real>)
    ensures Ascending(Sort(s))
    ensures multiset(Sort(s)) == multiset(s)
    decreases |s|
  {
    if |s| > 0 {
      SortAscending(s[1..]);
      InsertAscending(s[0], Sort(s[1..]));
      InsertMultiset(s[0], Sort(s[1..]));
      assert s == [s[0]] + s[1..];
    }
  }

  // ---------------------------------------------------------------------------
  // Order statistics

  /** How many elements of `s` exceed `x`. */
  function CountAbove(s: seq<real>, x: real): (r: nat)
    ensures r <= |s|
    decreases |s|
  {
    if |s| == 0 then 0 else (if s[0] > x then 1 else 0) + CountAbove(s[1..], x)
  }

  /** How many elements of `s` are at least `x`. */
  function CountAtLeast(s: seq<real>, x: real): (r: nat)
    ensures r <= |s|
    decreases |s|
  {
    if |s| == 0 then 0 else (if s[0] >= x then 1 else 0) + CountAtLeast(s[1..], x)
  }

  lemma {:induction false} CountInsert(y: real, s: seq<real>, x: real)
    ensures CountAbove(Insert(y, s), x) == CountAbove(s, x) + (if y > x then 1 else 0)
    ensures CountAtLeast(Insert(y, s), x) == CountAtLeast(s, x) + (if y >= x then 1 else 0)
    decreases |s|
  {
    if |s| == 0 || y <= s[0] {
      assert Insert(y, s)[1..] == s;
    } else {
      CountInsert(y, s[1..], x);
      assert Insert(y, s)[1..] == Insert(y, s[1..]);
    }
  }

  /** Sorting does not change how many elements lie above a threshold. */
  lemma {:induction false} CountSort(s: seq<real>, x: real)
    ensures CountAbove(Sort(s), x) == CountAbove(s, x)
    ensures CountAtLeast(Sort(s), x) == CountAtLeast(s, x)
    decreases |s|
  {
    if |s| > 0 {
      CountSort(s[1..], x);
      CountInsert(s[0], Sort(s[1..]), x);
    }
  }

  lemma {:induction false} AllAtLeast(t: seq<real>, x: real)
    requires forall i :: 0 <= i < |t| ==> t[i] >= x
    ensures CountAtLeast(t, x) == |t|
    decreases |t|
  {
    if |t| > 0 {
      AllAtLeast(t[1..], x);
    }
  }

  /** In an ascending sequence, at most `|t| - 1 - i` elements exceed `t[i]` and at
      least `|t| - i` elements are at least `t[i]`. */
  lemma {:induction false} AscendingCounts(t: seq<real>, i: nat)
    requires Ascending(t) && i < |t|
    ensures CountAbove(t, t[i]) <= |t| - 1 - i
    ensures CountAtLeast(t, t[i]) >= |t| - i
    decreases |t|
  {
    if i == 0 {
      AllAtLeast(t, t[0]);
    } else {
      AscendingCounts(t[1..], i - 1);
    }
  }

  /** The `k`-th largest element (`np.sort(s)[-k]`) is an element of `s`, with fewer
      than `k` elements of `s` above it and at least `k` at or above it. */
  lemma KthLargestRank(s: seq<real>, k: nat)
    requires 1 <= k <= |s|
    ensures Sort(s)[|s| - k] in s
    ensures CountAbove(s, Sort(s)[|s| - k]) < k
    ensures CountAtLeast(s, Sort(s)[|s| - k]) >= k
  {
    var t := Sort(s);
    SortAscending(s);
    CountSort(s, t[|s| - k]);
    KthOfSorted(s, t, k);
  }

  /** The rank facts for any ascending rearrangement `t` of `s`. */
  lemma KthOfSorted(s: seq<real>, t: seq<real>, k: nat)
    requires 1 <= k <= |s| == |t| && Ascending(t) && multiset(t) == multiset(s)
    requires CountAbove(t, t[|s| - k]) == CountAbove(s, t[|s| - k])
    requires CountAtLeast(t, t[|s| - k]) == CountAtLeast(s, t[|s| - k])
    ensures t[|s| - k] in s
    ensures CountAbove(s, t[|s| - k]) < k
    ensures CountAtLeast(s, t[|s| - k]) >= k
  {
    assert t[|s| - k] in multiset(t);
    AscendingCounts(t, |s| - k);
  }

  // ---------------------------------------------------------------------------
  // np.argsort

  predicate AscendingBy(order: seq<nat>, keys: seq<real>)
  {
    (forall j :: 0 <= j < |order| ==> order[j] < |keys|) &&
    forall a, b :: 0 <= a < b < |order| ==> keys[order[a]] <= keys[order[b]]
  }

  predicate Distinct(order: seq<nat>)
  {
    forall a, b :: 0 <= a < b < |order| ==> order[a] != order[b]
  }

  /** Inserts index `i` after every index whose key is at most `keys[i]`. */
  function InsertIndex(i: nat, order: seq<nat>, keys: seq<real>): (r: seq<nat>)
    requires i < |keys| && forall j :: 0 <= j < |order| ==> order[j] < |keys|
    ensures |r| == |order| + 1 && forall j :: 0 <= j < |r| ==> r[j] < |keys|
    decreases |order|
  {
    if |order| == 0 || keys[i] < keys[order[0]] then [i] + order
    else [order[0]] + InsertIndex(i, order[1..], keys)
  }

  /** Indices `0 .. n-1` ordered by ascending key. */
  function ArgSortUpTo(keys: seq<real>, n: nat): (r: seq<nat>)
    requires n <= |keys|
    ensures |r| == n && forall j :: 0 <= j < |r| ==> r[j] < |keys|
    decreases n
  {
    if n == 0 then [] else InsertIndex(n - 1, ArgSortUpTo(keys, n - 1), keys)
  }

  lemma {:induction false} ArgSortUpToBelow(keys: seq<real>, n: nat)
    requires n <= |keys|
    ensures forall j :: 0 <= j < n ==> ArgSortUpTo(keys, n)[j] < n
    decreases n
  {
    if n > 0 {
      var prefix := ArgSortUpTo(keys, n - 1);
      var r := ArgSortUpTo(keys, n);
      ArgSortUpToBelow(keys, n - 1);
      InsertIndexContents(n - 1, prefix, keys);
      var last: nat := n - 1;
      forall j | 0 <= j < n
        ensures r[j] < n
      {
        assert r[j] in multiset(prefix) + multiset{last};
      }
    }
  }

  /** `np.argsort`: the indices of `keys` that put the keys in ascending order. */
  function ArgSort(keys: seq<real>): (r: seq<nat>)
    ensures |r| == |keys| && forall j :: 0 <= j < |r| ==> r[j] < |keys|
  {
    ArgSortUpTo(keys, |keys|)
  }

  lemma {:induction false} InsertIndexContents(i: nat, order: seq<nat>, keys: seq<real>)
    requires i < |keys| && forall j :: 0 <= j < |order| ==> order[j] < |keys|
    ensures multiset(InsertIndex(i, order, keys)) == multiset(order) + multiset{i}
    decreases |order|
  {
    if |order| == 0 || keys[i] < keys[order[0]] {
    } else {
      InsertIndexContents(i, order[1..], keys);
      assert order == [order[0]] + order[1..];
    }
  }

  /** A key bound below `keys[i]` and below the keys of `order` stays below the keys
      of `InsertIndex(i, order, keys)`. */
  lemma {:induction false} InsertIndexBounded(i: nat, order: seq<nat>, keys: seq<real>, lo: real)
    requires i < |keys| && forall j :: 0 <= j < |order| ==> order[j] < |keys| && lo <= keys[order[j]]
    requires lo <= keys[i]
    ensures forall j :: 0 <= j < |order| + 1 ==> lo <= keys[InsertIndex(i, order, keys)[j]]
    decreases |order|
  {
    if |order| > 0 && keys[i] >= keys[order[0]] {
      InsertIndexBounded(i, order[1..], keys, lo);
    }
  }

  lemma ConsAscendingBy(a: nat, t: seq<nat>, keys: seq<real>)
    requires a < |keys| && AscendingBy(t, keys)
    requires forall j :: 0 <= j < |t| ==> keys[a] <= keys[t[j]]
    ensures AscendingBy([a] + t, keys)
  {
  }

  lemma {:induction false} InsertIndexAscending(i: nat, order: seq<nat>, keys: seq<real>)
    requires i < |keys| && AscendingBy(order, keys)
    ensures AscendingBy(InsertIndex(i, order, keys), keys)
    decreases |order|
  {
    if |order| == 0 || keys[i] < keys[order[0]] {
      ConsAscendingBy(i, order, keys);
    } else {
      InsertIndexAscending(i, order[1..], keys);
      InsertIndexBounded(i, order[1..], keys, keys[order[0]]);
      ConsAscendingBy(order[0], InsertIndex(i, order[1..], keys), keys);
    }
  }

  lemma {:induction false} InsertIndexDistinct(i: nat, order: seq<nat>, keys: seq<real>)
    requires i < |keys| && forall j :: 0 <= j < |order| ==> order[j] < |keys|
    requires Distinct(order) && i !in order
    ensures Distinct(InsertIndex(i, order, keys))
    decreases |order|
  {
    if |order| == 0 || keys[i] < keys[order[0]] {
    } else {
      InsertIndexDistinct(i, order[1..], keys);
      var t := InsertIndex(i, order[1..], keys);
      InsertIndexContents(i, order[1..], keys);
      forall j | 0 <= j < |t|
        ensures t[j] != order[0]
      {
        assert t[j] in multiset(order[1..]) + multiset{i};
      }
    }
  }

  lemma {:induction false} ArgSortUpToAscending(keys: seq<real>, n: nat)
    requires n <= |keys|
    ensures AscendingBy(ArgSortUpTo(keys, n), keys)
    decreases n
  {
    if n > 0 {
      ArgSortUpToAscending(keys, n - 1);
      InsertIndexAscending(n - 1, ArgSortUpTo(keys, n - 1), keys);
    }
  }

  lemma {:induction false} ArgSortUpToDistinct(keys: seq<real>, n: nat)
    requires n <= |keys|
    ensures Distinct(ArgSortUpTo(keys, n))
    decreases n
  {
    if n > 0 {
      var prefix := ArgSortUpTo(keys, n - 1);
      ArgSortUpToDistinct(keys, n - 1);
      ArgSortUpToBelow(keys, n - 1);
      assert n - 1 !in prefix;
      InsertIndexDistinct(n - 1, prefix, keys);
    }
  }

  lemma {:induction false} InsertIndexMembers(i: nat, order: seq<nat>, keys: seq<real>, x: nat)
    requires i < |keys| && forall j :: 0 <= j < |order| ==> order[j] < |keys|
    ensures x in InsertIndex(i, order, keys) <==> x == i || x in order
    decreases |order|
  {
    if |order| > 0 && keys[i] >= keys[order[0]] {
      InsertIndexMembers(i, order[1..], keys, x);
      assert order == [order[0]] + order[1..];
    }
  }

  lemma {:induction false} ArgSortUpToComplete(keys: seq<real>, n: nat)
    requires n <= |keys|
    ensures forall x: nat :: x < n ==> x in ArgSortUpTo(keys, n)
    decreases n
  {
    if n > 0 {
      var prefix := ArgSortUpTo(keys, n - 1);
      ArgSortUpToComplete(keys, n - 1);
      forall x: nat | x < n
        ensures x in ArgSortUpTo(keys, n)
      {
        InsertIndexMembers(n - 1, prefix, keys, x);
      }
    }
  }

  /** `np.argsort` yields every index of `keys` exactly once, in ascending key order. */
  lemma ArgSortIsSortingPermutation(keys: seq<real>)
    ensures AscendingBy(ArgSort(keys), keys)
    ensures Distinct(ArgSort(keys))
    ensures forall x: nat :: x < |keys| <==> x in ArgSort(keys)
  {
    ArgSortUpToAscending(keys, |keys|);
    ArgSortUpToDistinct(keys, |keys|);
    ArgSortUpToComplete(keys, |keys|);
  }
}
