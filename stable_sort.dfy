/** Python's `list.sort(key=key, reverse=True)`: sorts in place by a key,
    largest key first, and keeps elements with equal keys in their original
    order (the sort is stable, and `reverse=True` does not reverse ties). */
module StableSort {

  /** Keys never increase from left to right. */
  ghost predicate SortedDescending<T>(s: seq<T>, key: T -> int)
  {
    forall i, j :: 0 <= i < j < |s| ==> key(s[i]) >= key(s[j])
  }

  /** The elements of `s` whose key is `k`, in the order `s` holds them. */
  function WithKey<T>(s: seq<T>, key: T -> int, k: int): seq<T>
  {
    if s == [] then []
    else (if key(s[0]) == k then [s[0]] else []) + WithKey(s[1..], key, k)
  }

  /** For every key, `s` and `t` list the elements with that key in the same
      order: this is what stability means for a sort. */
  ghost predicate SameOrderPerKey<T>(s: seq<T>, t: seq<T>, key: T -> int)
  {
    forall k :: WithKey(s, key, k) == WithKey(t, key, k)
  }

  /** `output` is what a stable descending sort of `input` by `key` returns. */
  ghost predicate IsStableDescendingSort<T>(input: seq<T>, output: seq<T>, key: T -> int)
  {
    && SortedDescending(output, key)
    && multiset(output) == multiset(input)
    && SameOrderPerKey(input, output, key)
  }

  lemma {:induction false} WithKeyAppend<T>(p: seq<T>, q: seq<T>, key: T -> int, k: int)
    ensures WithKey(p + q, key, k) == WithKey(p, key, k) + WithKey(q, key, k)
  {
    if p == [] {
      assert p + q == q;
    } else {
      var head := if key(p[0]) == k then [p[0]] else [];
      assert (p + q)[0] == p[0];
      assert (p + q)[1..] == p[1..] + q;
      assert WithKey(p + q, key, k) == head + WithKey(p[1..] + q, key, k);
      WithKeyAppend(p[1..], q, key, k);
      assert WithKey(p, key, k) == head + WithKey(p[1..], key, k);
    }
  }

  /** Exchanging two neighbours with different keys keeps the elements and
      the order among equal keys. */
  lemma SwapNeighbours<T>(s: seq<T>, j: int, key: T -> int)
    requires 0 < j < |s|
    requires key(s[j - 1]) != key(s[j])
    ensures multiset(s[j - 1 := s[j]][j := s[j - 1]]) == multiset(s)
    ensures SameOrderPerKey(s, s[j - 1 := s[j]][j := s[j - 1]], key)
  {
    var t := s[j - 1 := s[j]][j := s[j - 1]];
    var front, back := s[..j - 1], s[j + 1..];
    assert s == front + [s[j - 1], s[j]] + back;
    assert t == front + [s[j], s[j - 1]] + back;
    forall k
      ensures WithKey(s, key, k) == WithKey(t, key, k)
    {
      WithKeyAppend(front + [s[j - 1], s[j]], back, key, k);
      WithKeyAppend(front, [s[j - 1], s[j]], key, k);
      WithKeyAppend(front + [s[j], s[j - 1]], back, key, k);
      WithKeyAppend(front, [s[j], s[j - 1]], key, k);
    }
  }

  /** The same, for a sequence `s` that already keeps the order of `o`. */
  lemma SwapNeighboursKeepsOrder<T>(o: seq<T>, s: seq<T>, j: int, key: T -> int)
    requires 0 < j < |s|
    requires key(s[j - 1]) != key(s[j])
    requires multiset(s) == multiset(o) && SameOrderPerKey(o, s, key)
    ensures multiset(s[j - 1 := s[j]][j := s[j - 1]]) == multiset(o)
    ensures SameOrderPerKey(o, s[j - 1 := s[j]][j := s[j - 1]], key)
  {
    SwapNeighbours(s, j, key);
  }

  /** With a key `k` that `s` holds somewhere, `WithKey` is not empty. */
  lemma {:induction false} WithKeyHas<T>(s: seq<T>, key: T -> int, i: int)
    requires 0 <= i < |s|
    ensures WithKey(s, key, key(s[i])) != []
  {
    if i > 0 && key(s[0]) != key(s[i]) {
      WithKeyHas(s[1..], key, i - 1);
    }
  }

  /** What `WithKey` selects comes from `s` and has key `k`. */
  lemma {:induction false} WithKeyMember<T>(s: seq<T>, key: T -> int, k: int, x: T)
    requires x in WithKey(s, key, k)
    ensures x in s && key(x) == k
  {
    if s != [] && !(key(s[0]) == k && x == s[0]) {
      WithKeyMember(s[1..], key, k, x);
    }
  }

  /** A sorted sequence starts with its largest key. */
  lemma WithKeyOfSortedHead<T>(s: seq<T>, key: T -> int, k: int)
    requires SortedDescending(s, key)
    requires WithKey(s, key, k) != []
    ensures s != [] && key(s[0]) >= k
  {
    var x := WithKey(s, key, k)[0];
    WithKeyMember(s, key, k, x);
  }

  /** Sorting by key, keeping the order among equal keys, leaves only one
      possible result: the postcondition of `SortDescending` determines the
      sorted list completely. */
  lemma {:induction false} SortedWithSameOrderUnique<T>(s: seq<T>, t: seq<T>, key: T -> int)
    requires SortedDescending(s, key) && SortedDescending(t, key)
    requires SameOrderPerKey(s, t, key)
    ensures s == t
  {
    if s == [] {
      if t != [] {
        WithKeyHas(t, key, 0);
      }
    } else if t == [] {
      WithKeyHas(s, key, 0);
    } else {
      var m := key(s[0]);
      WithKeyHas(s, key, 0);
      WithKeyHas(t, key, 0);
      WithKeyOfSortedHead(t, key, m);
      WithKeyOfSortedHead(s, key, key(t[0]));
      assert key(t[0]) == m;
      assert WithKey(s, key, m) == WithKey(t, key, m);
      assert WithKey(s, key, m)[0] == s[0];
      assert WithKey(t, key, m)[0] == t[0];
      forall k
        ensures WithKey(s[1..], key, k) == WithKey(t[1..], key, k)
      {
        var hs := if key(s[0]) == k then [s[0]] else [];
        var ht := if key(t[0]) == k then [t[0]] else [];
        assert hs == ht;
        assert WithKey(s, key, k) == hs + WithKey(s[1..], key, k);
        assert WithKey(t, key, k) == ht + WithKey(t[1..], key, k);
        assert WithKey(s, key, k) == WithKey(t, key, k);
        assert WithKey(s[1..], key, k) == WithKey(s, key, k)[|hs|..];
        assert WithKey(t[1..], key, k) == WithKey(t, key, k)[|ht|..];
      }
      SortedWithSameOrderUnique(s[1..], t[1..], key);
      assert s == [s[0]] + s[1..] && t == [t[0]] + t[1..];
    }
  }

  /** Two stable descending sorts of the same input agree. */
  lemma StableSortUnique<T>(input: seq<T>, out1: seq<T>, out2: seq<T>, key: T -> int)
    requires IsStableDescendingSort(input, out1, key)
    requires IsStableDescendingSort(input, out2, key)
    ensures out1 == out2
  {
    SortedWithSameOrderUnique(out1, out2, key);
  }

  /** Keys never increase along `s[..n]`. */
  ghost predicate SortedPrefix<T>(s: seq<T>, n: int, key: T -> int)
    requires 0 <= n <= |s|
  {
    forall p, q :: 0 <= p < q < n ==> key(s[p]) >= key(s[q])
  }

  /** The state of one insertion step: `s[..i + 1]` is sorted except for the
      element at `j`, whose key is larger than every key after it. */
  ghost predicate Inserting<T>(s: seq<T>, i: int, j: int, key: T -> int)
  {
    && 0 <= j <= i < |s|
    && (forall p, q :: 0 <= p < q <= i && p != j && q != j ==> key(s[p]) >= key(s[q]))
    && (forall q :: j < q <= i ==> key(s[q]) < key(s[j]))
  }

  lemma InsertingStep<T>(s: seq<T>, i: int, j: int, key: T -> int)
    requires Inserting(s, i, j, key) && 0 < j && key(s[j - 1]) < key(s[j])
    ensures Inserting(s[j - 1 := s[j]][j := s[j - 1]], i, j - 1, key)
  {
  }

  lemma InsertingDone<T>(s: seq<T>, i: int, j: int, key: T -> int)
    requires Inserting(s, i, j, key) && (j == 0 || key(s[j - 1]) >= key(s[j]))
    ensures SortedPrefix(s, i + 1, key)
  {
  }

  /** Exchanges `a[j - 1]` and `a[j]`. */
  method Swap<T>(a: array<T>, j: int)
    requires 0 < j < a.Length
    modifies a
    ensures a[..] == old(a[..])[j - 1 := old(a[j])][j := old(a[j - 1])]
  {
    a[j - 1], a[j] := a[j], a[j - 1];
  }

  /** Moves `a[i]` left past every strictly smaller key before it, so that
      the sorted prefix `a[..i]` grows to `a[..i + 1]`. */
  method InsertLeft<T>(a: array<T>, i: int, key: T -> int)
    requires 0 <= i < a.Length
    requires SortedPrefix(a[..], i, key)
    modifies a
    ensures SortedPrefix(a[..], i + 1, key)
    ensures multiset(a[..]) == multiset(old(a[..]))
    ensures SameOrderPerKey(old(a[..]), a[..], key)
  {
    var j := i;
    while j > 0 && key(a[j - 1]) < key(a[j])
      invariant Inserting(a[..], i, j, key)
      invariant multiset(a[..]) == multiset(old(a[..]))
      invariant SameOrderPerKey(old(a[..]), a[..], key)
    {
      InsertingStep(a[..], i, j, key);
      SwapNeighboursKeepsOrder(old(a[..]), a[..], j, key);
      Swap(a, j);
      j := j - 1;
    }
    InsertingDone(a[..], i, j, key);
  }

  /** Insertion sort by neighbour exchanges, largest key first; an element
      moves left only past strictly smaller keys, so ties keep their order. */
  method SortDescending<T>(a: array<T>, key: T -> int)
    modifies a
    ensures IsStableDescendingSort(old(a[..]), a[..], key)
  {
    var i := 0;
    while i < a.Length
      invariant 0 <= i <= a.Length
      invariant SortedPrefix(a[..], i, key)
      invariant multiset(a[..]) == multiset(old(a[..]))
      invariant SameOrderPerKey(old(a[..]), a[..], key)
    {
      InsertLeft(a, i, key);
      i := i + 1;
    }
  }
}
