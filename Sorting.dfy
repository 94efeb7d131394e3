/**
  A stable in-place sort by an integer key, as Array.prototype.sort does
  with the comparator (a, b) => key(a) - key(b): an element goes before
  another when its key is smaller, and elements with equal keys keep their
  order.

  The sort is specified by InsertionSort, a function on sequences; the
  lemmas below show that its result is ordered by key, is a permutation of
  the input and keeps the order among equal keys, and that any sequence with
  these three properties is that result, so the choice of algorithm does not
  matter.
 */
module Sorting {

  /** Keys never decrease from left to right. */
  predicate SortedBy<T>(s: seq<T>, key: T -> int) {
    forall i, j :: 0 <= i < j < |s| ==> key(s[i]) <= key(s[j])
  }

  /** The elements of s whose key is k, in their order in s. */
  function WithKey<T>(s: seq<T>, key: T -> int, k: int): seq<T> {
    if s == [] then []
    else WithKey(s[..|s| - 1], key, k) + (if key(s[|s| - 1]) == k then [s[|s| - 1]] else [])
  }

  /** Puts x after the last element of s whose key is not larger than its own. */
  function Insert<T>(x: T, s: seq<T>, key: T -> int): seq<T> {
    if s == [] then [x]
    else if key(x) < key(s[|s| - 1]) then Insert(x, s[..|s| - 1], key) + [s[|s| - 1]]
    else s + [x]
  }

  /** Sorts s by inserting its elements one after the other. */
  function InsertionSort<T>(s: seq<T>, key: T -> int): seq<T> {
    if s == [] then [] else Insert(s[|s| - 1], InsertionSort(s[..|s| - 1], key), key)
  }

  lemma WithKeyAppend<T>(s: seq<T>, y: T, key: T -> int, k: int)
    ensures WithKey(s + [y], key, k) == WithKey(s, key, k) + (if key(y) == k then [y] else [])
  {
    assert (s + [y])[..|s + [y]| - 1] == s;
  }

  lemma {:induction false} InsertPermutes<T>(x: T, s: seq<T>, key: T -> int)
    ensures multiset(Insert(x, s, key)) == multiset(s) + multiset{x}
    decreases |s|
  {
    if s != [] && key(x) < key(s[|s| - 1]) {
      InsertPermutes(x, s[..|s| - 1], key);
      assert s == s[..|s| - 1] + [s[|s| - 1]];
    }
  }

  lemma {:induction false} InsertSorted<T>(x: T, s: seq<T>, key: T -> int)
    requires SortedBy(s, key)
    ensures SortedBy(Insert(x, s, key), key)
    decreases |s|
  {
    if s != [] {
      var init, last := s[..|s| - 1], s[|s| - 1];
      if key(x) < key(last) {
        InsertSorted(x, init, key);
        InsertPermutes(x, init, key);
        var u := Insert(x, init, key);
        forall i | 0 <= i < |u|
          ensures key(u[i]) <= key(last)
        {
          assert u[i] in multiset(u);
          assert u[i] == x || u[i] in init;
        }
      }
    }
  }

  /** Inserting x adds it at the end of its own key's elements and leaves
      the other keys' elements as they were. */
  lemma {:induction false} InsertWithKey<T>(x: T, s: seq<T>, key: T -> int, k: int)
    ensures WithKey(Insert(x, s, key), key, k) == WithKey(s, key, k) + (if key(x) == k then [x] else [])
    decreases |s|
  {
    if s == [] {
      WithKeyAppend([], x, key, k);
    } else {
      var init, last := s[..|s| - 1], s[|s| - 1];
      assert s == init + [last];
      if key(x) < key(last) {
        InsertWithKey(x, init, key, k);
        WithKeyAppend(Insert(x, init, key), last, key, k);
        WithKeyAppend(init, last, key, k);
      } else {
        WithKeyAppend(s, x, key, k);
      }
    }
  }

  /** The sorted sequence is ordered by key. */
  lemma {:induction false} InsertionSortSorted<T>(s: seq<T>, key: T -> int)
    ensures SortedBy(InsertionSort(s, key), key)
    decreases |s|
  {
    if s != [] {
      InsertionSortSorted(s[..|s| - 1], key);
      InsertSorted(s[|s| - 1], InsertionSort(s[..|s| - 1], key), key);
    }
  }

  /** The sorted sequence holds the same elements, as often, as the input. */
  lemma {:induction false} InsertionSortPermutes<T>(s: seq<T>, key: T -> int)
    ensures multiset(InsertionSort(s, key)) == multiset(s)
    decreases |s|
  {
    if s != [] {
      var init, last := s[..|s| - 1], s[|s| - 1];
      InsertionSortPermutes(init, key);
      InsertPermutes(last, InsertionSort(init, key), key);
      assert InsertionSort(s, key) == Insert(last, InsertionSort(init, key), key);
      assert s == init + [last];
      assert multiset(s) == multiset(init) + multiset{last};
    }
  }

  /** Stability: for every key, its elements appear in the sorted sequence
      in the same order as in the input. */
  lemma {:induction false} InsertionSortStable<T>(s: seq<T>, key: T -> int, k: int)
    ensures WithKey(InsertionSort(s, key), key, k) == WithKey(s, key, k)
    decreases |s|
  {
    if s != [] {
      InsertionSortStable(s[..|s| - 1], key, k);
      InsertWithKey(s[|s| - 1], InsertionSort(s[..|s| - 1], key), key, k);
    }
  }

  /** Sorting what is already sorted changes nothing, so sorting twice
      gives what sorting once gives. */
  lemma {:induction false} InsertionSortOfSorted<T>(s: seq<T>, key: T -> int)
    requires SortedBy(s, key)
    ensures InsertionSort(s, key) == s
    decreases |s|
  {
    if s != [] {
      var init := s[..|s| - 1];
      assert SortedBy(init, key);
      InsertionSortOfSorted(init, key);
      assert s == init + [s[|s| - 1]];
    }
  }

  lemma InsertionSortIdempotent<T>(s: seq<T>, key: T -> int)
    ensures InsertionSort(InsertionSort(s, key), key) == InsertionSort(s, key)
  {
    InsertionSortSorted(s, key);
    InsertionSortOfSorted(InsertionSort(s, key), key);
  }

  lemma {:induction false} WithKeyMembers<T>(s: seq<T>, key: T -> int, k: int)
    ensures forall y :: y in WithKey(s, key, k) ==> y in s && key(y) == k
    decreases |s|
  {
    if s != [] {
      WithKeyMembers(s[..|s| - 1], key, k);
      assert forall y :: y in s[..|s| - 1] ==> y in s;
    }
  }

  lemma WithKeyOfLast<T>(s: seq<T>, key: T -> int)
    requires s != []
    ensures WithKey(s, key, key(s[|s| - 1])) != []
  {
  }

  /** Only the empty sequence agrees with the empty one key by key. */
  lemma AgreesWithEmpty<T>(u: seq<T>, key: T -> int)
    requires forall k :: WithKey(u, key, k) == []
    ensures u == []
  {
    if u != [] {
      WithKeyOfLast(u, key);
    }
  }

  /** Two non-empty sequences ordered by key that agree key by key end in
      the same element, and their prefixes agree key by key too. */
  lemma {:induction false} AgreeingLast<T>(t': seq<T>, a: T, u': seq<T>, b: T, key: T -> int)
    requires SortedBy(t' + [a], key) && SortedBy(u' + [b], key)
    requires forall k :: WithKey(t' + [a], key, k) == WithKey(u' + [b], key, k)
    ensures a == b
    ensures forall k :: WithKey(t', key, k) == WithKey(u', key, k)
  {
    var t, u := t' + [a], u' + [b];
    assert t[..|t| - 1] == t' && t[|t| - 1] == a;
    assert u[..|u| - 1] == u' && u[|u| - 1] == b;
    WithKeyMembers(t, key, key(b));
    WithKeyMembers(u, key, key(a));
    assert b in WithKey(u, key, key(b));
    assert a in WithKey(t, key, key(a));
    assert key(a) == key(b);
    forall k
      ensures WithKey(t', key, k) == WithKey(u', key, k)
    {
      var x, y := WithKey(t', key, k), WithKey(u', key, k);
      assert WithKey(t, key, k) == x + (if key(a) == k then [a] else []);
      assert WithKey(u, key, k) == y + (if key(b) == k then [b] else []);
      assert WithKey(t, key, k) == WithKey(u, key, k);
      if key(a) == k {
        assert x + [a] == y + [b];
        assert |x| == |y|;
        assert x == (x + [a])[..|x|] == (y + [b])[..|y|] == y;
      } else {
        assert key(b) != k;
        assert x + [] == x && y + [] == y;
      }
    }
    var x, y := WithKey(t', key, key(a)), WithKey(u', key, key(a));
    assert WithKey(t, key, key(a)) == x + [a];
    assert WithKey(u, key, key(a)) == y + [b];
    assert (x + [a])[|x|] == (y + [b])[|y|];
  }

  /** Two sequences ordered by key that agree, key by key, on the order of
      their elements are equal: a stable sort by key has one possible
      result. */
  lemma {:induction false} SortedStableUnique<T>(t: seq<T>, u: seq<T>, key: T -> int)
    requires SortedBy(t, key) && SortedBy(u, key)
    requires forall k :: WithKey(t, key, k) == WithKey(u, key, k)
    ensures t == u
    decreases |t| + |u|
  {
    if t == [] {
      AgreesWithEmpty(u, key);
    } else if u == [] {
      AgreesWithEmpty(t, key);
    } else {
      var t', u' := t[..|t| - 1], u[..|u| - 1];
      assert t == t' + [t[|t| - 1]] && u == u' + [u[|u| - 1]];
      AgreeingLast(t', t[|t| - 1], u', u[|u| - 1], key);
      assert SortedBy(t', key) && SortedBy(u', key);
      SortedStableUnique(t', u', key);
    }
  }

  /** Hence any stable sort by key, whatever its algorithm, produces
      InsertionSort. */
  lemma StableSortIsInsertionSort<T>(s: seq<T>, t: seq<T>, key: T -> int)
    requires SortedBy(t, key)
    requires forall k :: WithKey(t, key, k) == WithKey(s, key, k)
    ensures t == InsertionSort(s, key)
  {
    InsertionSortSorted(s, key);
    forall k
      ensures WithKey(t, key, k) == WithKey(InsertionSort(s, key), key, k)
    {
      InsertionSortStable(s, key, k);
    }
    SortedStableUnique(t, InsertionSort(s, key), key);
  }

  // Steps of the in-place sort, stated on InsertionSort and Insert.

  lemma SortPrefixStep<T>(input: seq<T>, i: nat, key: T -> int)
    requires i < |input|
    ensures InsertionSort(input[..i + 1], key) == Insert(input[i], InsertionSort(input[..i], key), key)
  {
    assert input[..i + 1][..i] == input[..i];
  }

  /** Insert puts x right after the last element whose key is not larger
      than its own: at j, when everything from j on has a larger key and the
      element before j does not. */
  lemma {:induction false} InsertAt<T>(x: T, done: seq<T>, j: nat, key: T -> int)
    requires j <= |done|
    requires forall k :: j <= k < |done| ==> key(x) < key(done[k])
    requires j == 0 || key(done[j - 1]) <= key(x)
    ensures Insert(x, done, key) == done[..j] + [x] + done[j..]
    decreases |done|
  {
    if j < |done| {
      var init := done[..|done| - 1];
      InsertAt(x, init, j, key);
      assert init[..j] == done[..j];
      assert done[j..] == init[j..] + [done[|done| - 1]];
    } else {
      assert done[..j] == done && done[j..] == [];
    }
  }

  /** Moves a[i] left past the larger keys of a[..i]: a[..i + 1] becomes
      Insert(a[i], a[..i]) and the rest of a is untouched. */
  method InsertInPlace<T>(a: array<T>, i: nat, key: T -> int)
    requires i < a.Length
    modifies a
    ensures a[..i + 1] == Insert(old(a[i]), old(a[..i]), key)
    ensures forall k :: i < k < a.Length ==> a[k] == old(a[k])
  {
    var x := a[i];
    ghost var done := a[..i];
    var j := i;
    while j > 0 && key(x) < key(a[j - 1])
      invariant 0 <= j <= i
      invariant forall k :: 0 <= k < j ==> a[k] == done[k]
      invariant forall k :: j < k <= i ==> a[k] == done[k - 1]
      invariant forall k :: i < k < a.Length ==> a[k] == old(a[k])
      invariant forall k :: j <= k < i ==> key(x) < key(done[k])
    {
      a[j] := a[j - 1];
      j := j - 1;
    }
    a[j] := x;
    InsertAt(x, done, j, key);
    ShiftedIsInserted(a[..i + 1], done, x, j);
  }

  /** A sequence that holds done[..j], then x, then the rest of done shifted
      one place right, is done with x inserted at j. */
  lemma ShiftedIsInserted<T>(s: seq<T>, done: seq<T>, x: T, j: nat)
    requires j <= |done| && |s| == |done| + 1
    requires forall k :: 0 <= k < j ==> s[k] == done[k]
    requires s[j] == x
    requires forall k :: j < k < |s| ==> s[k] == done[k - 1]
    ensures s == done[..j] + [x] + done[j..]
  {
    var result := done[..j] + [x] + done[j..];
    forall k | 0 <= k < |s|
      ensures s[k] == result[k]
    {
      if k < j {
        assert result[k] == done[k];
      } else if k > j {
        assert result[k] == done[k - 1];
      }
    }
  }

  /** Sorts a in place, stably, by key: afterwards a holds InsertionSort of
      its old contents. */
  method SortByKey<T>(a: array<T>, key: T -> int)
    modifies a
    ensures a[..] == InsertionSort(old(a[..]), key)
  {
    ghost var input := a[..];
    var i := 0;
    while i < a.Length
      invariant 0 <= i <= a.Length
      invariant a[..i] == InsertionSort(input[..i], key)
      invariant a[i..] == input[i..]
    {
      assert a[i] == input[i];
      InsertInPlace(a, i, key);
      SortPrefixStep(input, i, key);
      assert a[i + 1..] == input[i + 1..] by {
        assert forall k :: i + 1 <= k < a.Length ==> a[k] == input[k];
      }
      i := i + 1;
    }
    assert input[..a.Length] == input;
  }
}
