/**
 * Stable sorting by an integer key: what `array.sort((a, b) => a.ts - b.ts)` does on finite
 * timestamps (the ECMAScript sort is stable). `StableSort` is the specification, an insertion
 * sort over sequences; `SortInPlace` is the in-place algorithm proved to compute it.
 */
module Sorting {
  ghost predicate SortedBy<T>(s: seq<T>, key: T -> int) {
    forall i, j :: 0 <= i < j < |s| ==> key(s[i]) <= key(s[j])
  }

  /** The elements of `s` whose key is `k`, in their order in `s`. */
  function KeyFilter<T>(s: seq<T>, key: T -> int, k: int): seq<T> {
    if s == [] then []
    else KeyFilter(s[..|s| - 1], key, k) + Single(s[|s| - 1], key, k)
  }

  /** Where `x` goes in `s`: after every element whose key is at most `key(x)`, scanning from the right. */
  function InsertPos<T>(s: seq<T>, x: T, key: T -> int): (p: nat)
    ensures p <= |s|
    ensures forall i :: p <= i < |s| ==> key(s[i]) > key(x)
    ensures p > 0 ==> key(s[p - 1]) <= key(x)
  {
    if s == [] || key(s[|s| - 1]) <= key(x) then |s| else InsertPos(s[..|s| - 1], x, key)
  }

  function Insert<T>(s: seq<T>, x: T, key: T -> int): (r: seq<T>)
    ensures |r| == |s| + 1
  {
    var p := InsertPos(s, x, key);
    s[..p] + [x] + s[p..]
  }

  function StableSort<T>(s: seq<T>, key: T -> int): seq<T> {
    if s == [] then [] else Insert(StableSort(s[..|s| - 1], key), s[|s| - 1], key)
  }

  lemma {:induction false} InsertKeepsSorted<T>(s: seq<T>, x: T, key: T -> int)
    requires SortedBy(s, key)
    ensures SortedBy(Insert(s, x, key), key)
  {
    var p := InsertPos(s, x, key);
    var r := Insert(s, x, key);
    forall i, j | 0 <= i < j < |r| ensures key(r[i]) <= key(r[j]) {
      if j < p || i > p {
      } else if i == p {
        assert r[j] == s[j - 1];
      } else if j == p {
        assert r[i] == s[i];
      } else {
        assert r[i] == s[i] && r[j] == s[j - 1];
      }
    }
  }

  /** The sort orders by key. */
  lemma {:induction false} StableSortSorted<T>(s: seq<T>, key: T -> int)
    ensures SortedBy(StableSort(s, key), key)
  {
    if s != [] {
      StableSortSorted(s[..|s| - 1], key);
      InsertKeepsSorted(StableSort(s[..|s| - 1], key), s[|s| - 1], key);
    }
  }

  lemma InsertPermutes<T>(s: seq<T>, x: T, key: T -> int)
    ensures multiset(Insert(s, x, key)) == multiset(s) + multiset{x}
  {
    var p := InsertPos(s, x, key);
    assert s == s[..p] + s[p..];
  }

  /** The sort is a permutation. */
  lemma {:induction false} StableSortPermutes<T>(s: seq<T>, key: T -> int)
    ensures |StableSort(s, key)| == |s|
    ensures multiset(StableSort(s, key)) == multiset(s)
  {
    if s != [] {
      var init, last := s[..|s| - 1], s[|s| - 1];
      StableSortPermutes(init, key);
      InsertPermutes(StableSort(init, key), last, key);
      assert s == init + [last];
    }
  }

  lemma {:induction false} KeyFilterAppend<T>(a: seq<T>, b: seq<T>, key: T -> int, k: int)
    ensures KeyFilter(a + b, key, k) == KeyFilter(a, key, k) + KeyFilter(b, key, k)
    decreases |b|
  {
    if b != [] {
      assert (a + b)[..|a + b| - 1] == a + b[..|b| - 1];
      KeyFilterAppend(a, b[..|b| - 1], key, k);
    } else {
      assert a + b == a;
    }
  }

  lemma {:induction false} KeyFilterAbove<T>(s: seq<T>, key: T -> int, k: int)
    requires forall i :: 0 <= i < |s| ==> key(s[i]) > k
    ensures KeyFilter(s, key, k) == []
  {
    if s != [] {
      KeyFilterAbove(s[..|s| - 1], key, k);
    }
  }

  function Single<T>(x: T, key: T -> int, k: int): seq<T> {
    if key(x) == k then [x] else []
  }

  /** Putting `x` before elements with other keys does not change its place among its equals. */
  lemma KeyFilterPastLarger<T>(front: seq<T>, x: T, back: seq<T>, key: T -> int, k: int)
    requires key(x) == k ==> KeyFilter(back, key, k) == []
    ensures KeyFilter(front + [x] + back, key, k) == KeyFilter(front + back, key, k) + Single(x, key, k)
  {
    var F, B, X := KeyFilter(front, key, k), KeyFilter(back, key, k), Single(x, key, k);
    assert KeyFilter(front + [x], key, k) == F + X by {
      assert (front + [x])[..|front|] == front;
    }
    KeyFilterAppend(front + [x], back, key, k);
    KeyFilterAppend(front, back, key, k);
    if key(x) == k {
      calc {
        F + X + B;
        F + X;
        { assert F + B == F; }
        (F + B) + X;
      }
    } else {
      calc {
        F + X + B;
        F + B;
        (F + B) + X;
      }
    }
  }

  lemma InsertKeyFilter<T>(s: seq<T>, x: T, key: T -> int, k: int)
    ensures KeyFilter(Insert(s, x, key), key, k) == KeyFilter(s, key, k) + Single(x, key, k)
  {
    var p := InsertPos(s, x, key);
    assert s == s[..p] + s[p..];
    if key(x) == k {
      KeyFilterAbove(s[p..], key, k);
    }
    KeyFilterPastLarger(s[..p], x, s[p..], key, k);
  }

  /** Stability: among elements with equal keys the sort keeps the input order. */
  lemma {:induction false} StableSortIsStable<T>(s: seq<T>, key: T -> int, k: int)
    ensures KeyFilter(StableSort(s, key), key, k) == KeyFilter(s, key, k)
  {
    if s != [] {
      StableSortIsStable(s[..|s| - 1], key, k);
      InsertKeyFilter(StableSort(s[..|s| - 1], key), s[|s| - 1], key, k);
    }
  }

  /** A sequence that is already ordered is left exactly as it is. */
  lemma {:induction false} StableSortOfSorted<T>(s: seq<T>, key: T -> int)
    requires SortedBy(s, key)
    ensures StableSort(s, key) == s
  {
    if s != [] {
      var front := s[..|s| - 1];
      assert SortedBy(front, key);
      StableSortOfSorted(front, key);
      assert InsertPos(front, s[|s| - 1], key) == |front|;
      assert front[..|front|] == front;
    }
  }

  /** Appending one element to an ordered sequence and sorting inserts it after its equals. */
  lemma AppendThenSort<T>(s: seq<T>, x: T, key: T -> int)
    requires SortedBy(s, key)
    ensures StableSort(s + [x], key) == Insert(s, x, key)
  {
    assert (s + [x])[..|s|] == s;
    StableSortOfSorted(s, key);
  }

  /** Sorting the sorted prefix again changes nothing: `sort(sort(a) + b) == sort(a + b)`. */
  lemma {:induction false} SortPrefixAbsorbed<T>(a: seq<T>, b: seq<T>, key: T -> int)
    ensures StableSort(StableSort(a, key) + b, key) == StableSort(a + b, key)
    decreases |b|
  {
    if b == [] {
      assert StableSort(a, key) + b == StableSort(a, key) && a + b == a;
      StableSortSorted(a, key);
      StableSortOfSorted(StableSort(a, key), key);
    } else {
      var b' := b[..|b| - 1];
      SortPrefixAbsorbed(a, b', key);
      assert (StableSort(a, key) + b)[..|StableSort(a, key) + b| - 1] == StableSort(a, key) + b';
      assert (a + b)[..|a + b| - 1] == a + b';
    }
  }

  /** The insertion point is the one after which every key is larger than `key(x)` and before which none is. */
  lemma {:induction false} InsertPosAt<T>(s: seq<T>, x: T, key: T -> int, j: nat)
    requires j <= |s| && (j == 0 || key(s[j - 1]) <= key(x))
    requires forall k :: j <= k < |s| ==> key(s[k]) > key(x)
    ensures InsertPos(s, x, key) == j
    decreases |s|
  {
    if j < |s| {
      InsertPosAt(s[..|s| - 1], x, key, j);
    }
  }

  /** A sequence that agrees with `Insert` position by position is `Insert`. */
  lemma InsertPointwise<T>(s: seq<T>, x: T, key: T -> int, j: nat, r: seq<T>)
    requires j == InsertPos(s, x, key) && |r| == |s| + 1
    requires r[..j] == s[..j]
    requires r[j] == x
    requires forall k :: j < k < |r| ==> r[k] == s[k - 1]
    ensures r == Insert(s, x, key)
  {
  }

  method InsertLast<T>(a: array<T>, i: nat, key: T -> int)
    requires i < a.Length
    modifies a
    ensures a[..i + 1] == Insert(old(a[..i]), old(a[i]), key)
    ensures a[i + 1..] == old(a[i + 1..])
  {
    var x := a[i];
    ghost var sorted := a[..i];
    var j := i;
    while j > 0 && key(a[j - 1]) > key(x)
      invariant 0 <= j <= i
      invariant a[..j] == sorted[..j]
      invariant forall k :: j < k <= i ==> a[k] == sorted[k - 1]
      invariant a[i + 1..] == old(a[i + 1..])
      invariant forall k :: j <= k < i ==> key(sorted[k]) > key(x)
    {
      a[j] := a[j - 1];
      j := j - 1;
    }
    InsertPosAt(sorted, x, key, j);
    a[j] := x;
    InsertPointwise(sorted, x, key, j, a[..i + 1]);
  }

  /** Insertion sort in place; the result is `StableSort` of the original contents. */
  method SortInPlace<T>(a: array<T>, key: T -> int)
    modifies a
    ensures a[..] == StableSort(old(a[..]), key)
  {
    ghost var orig := a[..];
    var i := 0;
    while i < a.Length
      invariant 0 <= i <= a.Length
      invariant a[..i] == StableSort(orig[..i], key)
      invariant forall k :: i <= k < a.Length ==> a[k] == orig[k]
    {
      InsertLast(a, i, key);
      assert orig[..i + 1][..i] == orig[..i];
      i := i + 1;
    }
    assert orig[..a.Length] == orig;
  }
}
