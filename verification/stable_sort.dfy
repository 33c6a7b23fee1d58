/** `Array.prototype.sort` with the comparator `(a, b) => key(b) - key(a)`:
    a stable sort into non-increasing key order.

    The model is a stable insertion sort. `StableSortIsUnique` shows that every
    stable sort into non-increasing key order returns this same sequence, so the
    engine's own algorithm cannot be told apart from it. */
module StableSort {

  /** Keys never increase from left to right. */
  ghost predicate SortedDesc<T>(xs: seq<T>, key: T -> int) {
    forall i, j | 0 <= i < j < |xs| :: key(xs[i]) >= key(xs[j])
  }

  /** Keys strictly decrease from left to right. */
  ghost predicate StrictlyDesc<T>(xs: seq<T>, key: T -> int) {
    forall i, j | 0 <= i < j < |xs| :: key(xs[i]) > key(xs[j])
  }

  /** No two elements share a key. */
  ghost predicate DistinctKeys<T>(xs: seq<T>, key: T -> int) {
    forall i, j | 0 <= i < j < |xs| :: key(xs[i]) != key(xs[j])
  }

  /** The elements of `xs` whose key is `k`, in their order in `xs`. A sort is
      stable exactly when it leaves every such subsequence unchanged. */
  function WithKey<T>(xs: seq<T>, key: T -> int, k: int): (r: seq<T>)
    ensures forall x | x in r :: x in xs && key(x) == k
  {
    if xs == [] then []
    else (if key(xs[0]) == k then [xs[0]] else []) + WithKey(xs[1..], key, k)
  }

  /** Places `x` in front of the first element whose key is not larger than its own. */
  function Insert<T>(x: T, ys: seq<T>, key: T -> int): seq<T> {
    if ys == [] || key(x) >= key(ys[0]) then [x] + ys
    else [ys[0]] + Insert(x, ys[1..], key)
  }

  lemma {:induction false} InsertMultiset<T>(x: T, ys: seq<T>, key: T -> int)
    ensures multiset(Insert(x, ys, key)) == multiset(ys) + multiset{x}
  {
    if ys != [] && key(x) < key(ys[0]) {
      InsertMultiset(x, ys[1..], key);
      assert ys == [ys[0]] + ys[1..];
    }
  }

  lemma {:induction false} InsertSorted<T>(x: T, ys: seq<T>, key: T -> int)
    requires SortedDesc(ys, key)
    ensures SortedDesc(Insert(x, ys, key), key)
  {
    if ys == [] || key(x) >= key(ys[0]) {
      ConsSorted(x, ys, key);
    } else {
      var rest := Insert(x, ys[1..], key);
      assert SortedDesc(ys[1..], key);
      InsertSorted(x, ys[1..], key);
      InsertMultiset(x, ys[1..], key);
      InsertTailBound(x, ys, rest, key);
      ConsSorted(ys[0], rest, key);
    }
  }

  lemma {:induction false} InsertStrict<T>(x: T, ys: seq<T>, key: T -> int)
    requires StrictlyDesc(ys, key)
    requires forall y | y in ys :: key(y) != key(x)
    ensures StrictlyDesc(Insert(x, ys, key), key)
  {
    if ys == [] || key(x) >= key(ys[0]) {
      assert forall j | 0 <= j < |ys| :: ys[j] in ys;
      ConsStrict(x, ys, key);
    } else {
      var rest := Insert(x, ys[1..], key);
      assert StrictlyDesc(ys[1..], key);
      assert forall y | y in ys[1..] :: y in ys;
      InsertStrict(x, ys[1..], key);
      InsertMultiset(x, ys[1..], key);
      InsertTailBound(x, ys, rest, key);
      ConsStrict(ys[0], rest, key);
    }
  }

  lemma ConsSorted<T>(h: T, t: seq<T>, key: T -> int)
    requires SortedDesc(t, key)
    requires forall j | 0 <= j < |t| :: key(t[j]) <= key(h)
    ensures SortedDesc([h] + t, key)
  {
    var s := [h] + t;
    forall i, j | 0 <= i < j < |s| ensures key(s[i]) >= key(s[j]) {
      assert s[j] == t[j - 1];
      if i > 0 {
        assert s[i] == t[i - 1];
      }
    }
  }

  lemma ConsStrict<T>(h: T, t: seq<T>, key: T -> int)
    requires StrictlyDesc(t, key)
    requires forall j | 0 <= j < |t| :: key(t[j]) < key(h)
    ensures StrictlyDesc([h] + t, key)
  {
    var s := [h] + t;
    forall i, j | 0 <= i < j < |s| ensures key(s[i]) > key(s[j]) {
      assert s[j] == t[j - 1];
      if i > 0 {
        assert s[i] == t[i - 1];
      }
    }
  }

  /** When `x` goes behind `ys[0]`, nothing inserted after `ys[0]` outranks it. */
  lemma InsertTailBound<T>(x: T, ys: seq<T>, rest: seq<T>, key: T -> int)
    requires |ys| > 0 && key(x) < key(ys[0])
    requires multiset(rest) == multiset(ys[1..]) + multiset{x}
    ensures SortedDesc(ys, key) ==> forall j | 0 <= j < |rest| :: key(rest[j]) <= key(ys[0])
    ensures StrictlyDesc(ys, key) ==> forall j | 0 <= j < |rest| :: key(rest[j]) < key(ys[0])
  {
    forall j | 0 <= j < |rest| ensures rest[j] == x || rest[j] in ys[1..] {
      assert rest[j] in multiset(rest);
    }
  }

  /** The sorted copy of `xs`: a permutation, ordered by non-increasing key. */
  function SortDesc<T>(xs: seq<T>, key: T -> int): (r: seq<T>)
    ensures |r| == |xs|
    ensures multiset(r) == multiset(xs)
    ensures SortedDesc(r, key)
    ensures DistinctKeys(xs, key) ==> StrictlyDesc(r, key)
  {
    if xs == [] then []
    else
      var rest := SortDesc(xs[1..], key);
      MultisetHeadTail(xs);
      var r := Insert(xs[0], rest, key);
      InsertMultiset(xs[0], rest, key);
      InsertSorted(xs[0], rest, key);
      assert DistinctKeys(xs, key) ==> StrictlyDesc(r, key) by {
        if DistinctKeys(xs, key) {
          DistinctKeysStep(xs, rest, key);
          InsertStrict(xs[0], rest, key);
        }
      }
      assert |r| == |multiset(r)|;
      r
  }

  lemma MultisetHeadTail<T>(xs: seq<T>)
    requires |xs| > 0
    ensures multiset(xs) == multiset(xs[1..]) + multiset{xs[0]}
  {
    assert xs == [xs[0]] + xs[1..];
  }

  /** With distinct keys, the tail keeps distinct keys and no permutation of
      it shares a key with the head. */
  lemma DistinctKeysStep<T>(xs: seq<T>, rest: seq<T>, key: T -> int)
    requires |xs| > 0 && DistinctKeys(xs, key)
    requires multiset(rest) == multiset(xs[1..])
    ensures DistinctKeys(xs[1..], key)
    ensures forall y | y in rest :: key(y) != key(xs[0])
  {
    forall y | y in rest ensures key(y) != key(xs[0]) {
      assert y in multiset(xs[1..]);
      var j :| 0 <= j < |xs[1..]| && xs[1..][j] == y;
      assert xs[j + 1] == y;
    }
  }

  lemma WithKeyCons<T>(h: T, t: seq<T>, key: T -> int, k: int)
    ensures WithKey([h] + t, key, k) == (if key(h) == k then [h] else []) + WithKey(t, key, k)
  {
    assert ([h] + t)[1..] == t;
  }

  lemma {:induction false} InsertWithKey<T>(x: T, ys: seq<T>, key: T -> int, k: int)
    ensures WithKey(Insert(x, ys, key), key, k) == (if key(x) == k then [x] else []) + WithKey(ys, key, k)
  {
    if ys == [] || key(x) >= key(ys[0]) {
      WithKeyCons(x, ys, key, k);
    } else {
      var rest := Insert(x, ys[1..], key);
      var h0 := if key(ys[0]) == k then [ys[0]] else [];
      var hx := if key(x) == k then [x] else [];
      var w := WithKey(ys[1..], key, k);
      InsertWithKey(x, ys[1..], key, k);
      assert Insert(x, ys, key) == [ys[0]] + rest;
      WithKeyCons(ys[0], rest, key, k);
      assert WithKey(ys, key, k) == h0 + w;
      SwapEmpty(h0, hx, w);
    }
  }

  /** Two blocks one of which is empty can be swapped. */
  lemma SwapEmpty<T>(a: seq<T>, b: seq<T>, w: seq<T>)
    requires a == [] || b == []
    ensures a + (b + w) == b + (a + w)
  {
    if a == [] {
      assert a + (b + w) == b + w;
      assert a + w == w;
    } else {
      assert b + w == w;
      assert b + (a + w) == a + w;
    }
  }

  /** The sort is stable: elements with equal keys keep their relative order. */
  lemma {:induction false} SortDescIsStable<T>(xs: seq<T>, key: T -> int, k: int)
    ensures WithKey(SortDesc(xs, key), key, k) == WithKey(xs, key, k)
  {
    if xs != [] {
      SortDescIsStable(xs[1..], key, k);
      InsertWithKey(xs[0], SortDesc(xs[1..], key), key, k);
    }
  }

  lemma {:induction false} WithKeyNonEmpty<T>(xs: seq<T>, key: T -> int, i: int)
    requires 0 <= i < |xs|
    ensures |WithKey(xs, key, key(xs[i]))| > 0
  {
    if i > 0 {
      WithKeyNonEmpty(xs[1..], key, i - 1);
    }
  }

  /** The first element with key `k` heads the subsequence of key `k`. */
  lemma {:induction false} WithKeyHead<T>(xs: seq<T>, key: T -> int, i: int)
    requires 0 <= i < |xs|
    requires forall j | 0 <= j < i :: key(xs[j]) != key(xs[i])
    ensures |WithKey(xs, key, key(xs[i]))| > 0 && WithKey(xs, key, key(xs[i]))[0] == xs[i]
  {
    if i > 0 {
      WithKeyHead(xs[1..], key, i - 1);
    }
  }

  /** In a sequence sorted by non-increasing key, no element outranks the head. */
  lemma SortedHeadIsMax<T>(xs: seq<T>, key: T -> int, x: T)
    requires SortedDesc(xs, key) && x in xs
    ensures key(x) <= key(xs[0])
  {
    var j :| 0 <= j < |xs| && xs[j] == x;
    if j > 0 {
      assert key(xs[0]) >= key(xs[j]);
    }
  }

  /** Two non-empty sorted sequences that agree on every key's subsequence
      start with the same element. */
  lemma SortedSameHead<T>(a: seq<T>, b: seq<T>, key: T -> int)
    requires |a| > 0 && |b| > 0
    requires SortedDesc(a, key) && SortedDesc(b, key)
    requires forall k :: WithKey(a, key, k) == WithKey(b, key, k)
    ensures a[0] == b[0]
  {
    var ka, kb := key(a[0]), key(b[0]);
    WithKeyNonEmpty(a, key, 0);
    WithKeyNonEmpty(b, key, 0);
    var wa := WithKey(b, key, ka);
    assert wa == WithKey(a, key, ka);
    assert wa[0] in wa;
    SortedHeadIsMax(b, key, wa[0]);
    var wb := WithKey(a, key, kb);
    assert wb == WithKey(b, key, kb);
    assert wb[0] in wb;
    SortedHeadIsMax(a, key, wb[0]);
    WithKeyHead(a, key, 0);
    WithKeyHead(b, key, 0);
  }

  /** Dropping a common head keeps the key subsequences in agreement. */
  lemma SameTails<T>(a: seq<T>, b: seq<T>, key: T -> int)
    requires |a| > 0 && |b| > 0 && a[0] == b[0]
    requires forall k :: WithKey(a, key, k) == WithKey(b, key, k)
    ensures forall k :: WithKey(a[1..], key, k) == WithKey(b[1..], key, k)
  {
    forall k ensures WithKey(a[1..], key, k) == WithKey(b[1..], key, k) {
      var head := if key(a[0]) == k then [a[0]] else [];
      assert WithKey(a, key, k) == head + WithKey(a[1..], key, k);
      assert WithKey(b, key, k) == head + WithKey(b[1..], key, k);
      assert (head + WithKey(a[1..], key, k))[|head|..] == WithKey(a[1..], key, k);
      assert (head + WithKey(b[1..], key, k))[|head|..] == WithKey(b[1..], key, k);
    }
  }

  /** Two sequences sorted by non-increasing key that agree on every key's
      subsequence are equal. */
  lemma {:induction false} SortedUnique<T>(a: seq<T>, b: seq<T>, key: T -> int)
    requires SortedDesc(a, key) && SortedDesc(b, key)
    requires forall k :: WithKey(a, key, k) == WithKey(b, key, k)
    ensures a == b
    decreases |a| + |b|
  {
    if a == [] && b == [] {
    } else if a == [] {
      WithKeyNonEmpty(b, key, 0);
    } else if b == [] {
      WithKeyNonEmpty(a, key, 0);
    } else {
      SortedSameHead(a, b, key);
      SameTails(a, b, key);
      SortedTail(a, key);
      SortedTail(b, key);
      SortedUnique(a[1..], b[1..], key);
      SameHeadSameTail(a, b);
    }
  }

  lemma SortedTail<T>(xs: seq<T>, key: T -> int)
    requires |xs| > 0 && SortedDesc(xs, key)
    ensures SortedDesc(xs[1..], key)
  {
  }

  /** Sequences that agree on their head and on their tail are equal. */
  lemma SameHeadSameTail<T>(a: seq<T>, b: seq<T>)
    requires |a| > 0 && |b| > 0 && a[0] == b[0] && a[1..] == b[1..]
    ensures a == b
  {
    assert |a| == |b|;
    forall i | 0 <= i < |a| ensures a[i] == b[i] {
      if i > 0 {
        assert a[i] == a[1..][i - 1];
      }
    }
  }

  /** Any stable sort into non-increasing key order returns `SortDesc(xs, key)`. */
  lemma StableSortIsUnique<T>(xs: seq<T>, r: seq<T>, key: T -> int)
    requires SortedDesc(r, key)
    requires forall k :: WithKey(r, key, k) == WithKey(xs, key, k)
    ensures r == SortDesc(xs, key)
  {
    forall k ensures WithKey(r, key, k) == WithKey(SortDesc(xs, key), key, k) {
      SortDescIsStable(xs, key, k);
    }
    SortedUnique(r, SortDesc(xs, key), key);
  }

  /** `i` is the first position holding a largest key. */
  ghost predicate IsFirstMax<T>(xs: seq<T>, key: T -> int, i: int) {
    && 0 <= i < |xs|
    && (forall j | 0 <= j < |xs| :: key(xs[j]) <= key(xs[i]))
    && (forall j | 0 <= j < i :: key(xs[j]) < key(xs[i]))
  }

  /** Every element of a permutation of a sorted sequence has a key no larger
      than the sorted sequence's head. */
  lemma HeadIsMax<T>(xs: seq<T>, r: seq<T>, key: T -> int)
    requires |r| > 0 && SortedDesc(r, key) && multiset(r) == multiset(xs)
    ensures forall j | 0 <= j < |xs| :: key(xs[j]) <= key(r[0])
  {
    forall j | 0 <= j < |xs| ensures key(xs[j]) <= key(r[0]) {
      assert xs[j] in multiset(r);
      var q :| 0 <= q < |r| && r[q] == xs[j];
    }
  }

  /** Some position of `xs` is the first one holding key `m`. */
  lemma FirstWithKey<T>(xs: seq<T>, key: T -> int, p: int, m: int) returns (i: int)
    requires 0 <= p < |xs| && key(xs[p]) == m
    ensures 0 <= i <= p && key(xs[i]) == m
    ensures forall j | 0 <= j < i :: key(xs[j]) != m
  {
    i := 0;
    while key(xs[i]) != m
      invariant 0 <= i <= p
      invariant forall j | 0 <= j < i :: key(xs[j]) != m
      decreases p - i
    {
      i := i + 1;
    }
  }

  /** The head of the sorted copy is the first element holding the largest key. */
  lemma SortDescHead<T>(xs: seq<T>, key: T -> int)
    requires |xs| > 0
    ensures exists i :: IsFirstMax(xs, key, i) && SortDesc(xs, key)[0] == xs[i]
  {
    var r := SortDesc(xs, key);
    var m := key(r[0]);
    HeadIsMax(xs, r, key);
    assert r[0] in multiset(xs);
    var p :| 0 <= p < |xs| && xs[p] == r[0];
    var i := FirstWithKey(xs, key, p, m);
    WithKeyHead(xs, key, i);
    SortDescIsStable(xs, key, m);
    WithKeyHead(r, key, 0);
    assert IsFirstMax(xs, key, i);
  }

  /** Extending a prefix by one element: the first maximum moves to the new
      element exactly when its key is strictly larger. */
  lemma FirstMaxStep<T>(xs: seq<T>, key: T -> int, i: int, best: int)
    requires 0 <= i < |xs| && IsFirstMax(xs[..i], key, best)
    ensures IsFirstMax(xs[..i + 1], key, if key(xs[i]) > key(xs[best]) then i else best)
  {
    assert forall j | 0 <= j < i :: xs[..i + 1][j] == xs[..i][j];
  }

  /** The first position of a largest key is unique. */
  lemma FirstMaxUnique<T>(xs: seq<T>, key: T -> int, i: int, j: int)
    requires IsFirstMax(xs, key, i) && IsFirstMax(xs, key, j)
    ensures i == j
  {
    assert key(xs[j]) <= key(xs[i]) && key(xs[i]) <= key(xs[j]);
  }

  lemma {:induction false} WithKeyConcat<T>(a: seq<T>, b: seq<T>, key: T -> int, k: int)
    ensures WithKey(a + b, key, k) == WithKey(a, key, k) + WithKey(b, key, k)
  {
    if a != [] {
      WithKeyConcat(a[1..], b, key, k);
      assert (a + b)[1..] == a[1..] + b;
    } else {
      assert a + b == b;
    }
  }
}
