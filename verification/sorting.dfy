/**
 * `Array.prototype.sort` with a comparator `(a, b) => key(b) - key(a)`, the
 * ordering both normalisers use. Since ECMAScript 2019 the sort is required
 * to be stable, so the result is the input reordered by descending key with
 * ties left in input order; `SortDesc` is one insertion sort that does so,
 * and `SortUnique` shows that no other ordering meets that description.
 */
module Sorting {

  /** Keys never increase from left to right. */
  predicate SortedDesc<T>(s: seq<T>, key: T -> int) {
    forall i, j :: 0 <= i < j < |s| ==> key(s[i]) >= key(s[j])
  }

  /** The elements of `s` whose key is `k`, in the order they occur in `s`. */
  function WithKey<T>(s: seq<T>, key: T -> int, k: int): seq<T> {
    if |s| == 0 then []
    else if key(s[0]) == k then [s[0]] + WithKey(s[1..], key, k)
    else WithKey(s[1..], key, k)
  }

  /** `x` placed in front of the first element whose key is not greater than its own. */
  function Insert<T>(x: T, s: seq<T>, key: T -> int): (r: seq<T>)
    requires SortedDesc(s, key)
    ensures SortedDesc(r, key)
    ensures multiset(r) == multiset(s) + multiset{x}
    ensures |r| == |s| + 1
  {
    if |s| == 0 then [x]
    else if key(s[0]) > key(x) then
      var rest := Insert(x, s[1..], key);
      assert s == [s[0]] + s[1..];
      HeadBoundsInsertion(x, s, rest, key);
      ConsSorted(s[0], rest, key);
      [s[0]] + rest
    else [x] + s
  }

  /** What is inserted behind the head of `s` has keys no larger than the head's. */
  lemma HeadBoundsInsertion<T>(x: T, s: seq<T>, rest: seq<T>, key: T -> int)
    requires SortedDesc(s, key)
    requires |s| > 0 && key(s[0]) > key(x)
    requires multiset(rest) == multiset(s[1..]) + multiset{x}
    ensures forall j :: 0 <= j < |rest| ==> key(rest[j]) <= key(s[0])
  {
    forall j | 0 <= j < |rest|
      ensures key(rest[j]) <= key(s[0])
    {
      assert rest[j] in multiset(rest);
      if rest[j] != x {
        assert rest[j] in multiset(s[1..]);
        assert rest[j] in s[1..];
        var i :| 0 <= i < |s[1..]| && s[1..][i] == rest[j];
        assert s[i + 1] == rest[j];
      }
    }
  }

  /** A head no smaller than everything behind it extends a sorted sequence. */
  lemma ConsSorted<T>(h: T, s: seq<T>, key: T -> int)
    requires SortedDesc(s, key)
    requires forall j :: 0 <= j < |s| ==> key(s[j]) <= key(h)
    ensures SortedDesc([h] + s, key)
  {
    forall i, j | 0 <= i < j < |[h] + s|
      ensures key(([h] + s)[i]) >= key(([h] + s)[j])
    {
      if i > 0 {
        assert ([h] + s)[i] == s[i - 1];
      }
      assert ([h] + s)[j] == s[j - 1];
    }
  }

  /** The input reordered by descending key, ties in input order. */
  function SortDesc<T>(s: seq<T>, key: T -> int): (r: seq<T>)
    ensures SortedDesc(r, key)
    ensures multiset(r) == multiset(s)
    ensures |r| == |s|
  {
    if |s| == 0 then []
    else
      assert s == [s[0]] + s[1..];
      Insert(s[0], SortDesc(s[1..], key), key)
  }

  /** Inserting `x` keeps the elements of each key in order, with `x` first among its own. */
  lemma {:induction false} InsertWithKey<T>(x: T, s: seq<T>, key: T -> int, k: int)
    requires SortedDesc(s, key)
    ensures WithKey(Insert(x, s, key), key, k)
         == if key(x) == k then [x] + WithKey(s, key, k) else WithKey(s, key, k)
  {
    if |s| == 0 {
    } else if key(s[0]) > key(x) {
      var rest := Insert(x, s[1..], key);
      InsertWithKey(x, s[1..], key, k);
      assert ([s[0]] + rest)[1..] == rest;
      if key(x) == k {
        // Everything in front of x has a larger key, so none of it has key k.
        assert key(s[0]) != k;
      }
    } else {
      assert ([x] + s)[1..] == s;
      if key(x) == k {
      } else {
        assert WithKey([x] + s, key, k) == WithKey(s, key, k);
      }
    }
  }

  /** Stability: for every key, the elements with that key keep their input order. */
  lemma {:induction false} SortStable<T>(s: seq<T>, key: T -> int, k: int)
    ensures WithKey(SortDesc(s, key), key, k) == WithKey(s, key, k)
  {
    if |s| > 0 {
      SortStable(s[1..], key, k);
      InsertWithKey(s[0], SortDesc(s[1..], key), key, k);
    }
  }

  lemma SortStableAll<T>(s: seq<T>, key: T -> int)
    ensures forall k :: WithKey(SortDesc(s, key), key, k) == WithKey(s, key, k)
  {
    forall k {
      SortStable(s, key, k);
    }
  }

  /** The first element of a sorted sequence heads the elements of its key. */
  lemma {:induction false} HeadLeadsItsKey<T>(s: seq<T>, key: T -> int)
    requires |s| > 0
    ensures WithKey(s, key, key(s[0])) == [s[0]] + WithKey(s[1..], key, key(s[0]))
  {
  }

  /** An element with key `k` shows up among the elements of key `k`. */
  lemma {:induction false} InWithKey<T>(s: seq<T>, key: T -> int, i: int)
    requires 0 <= i < |s|
    ensures |WithKey(s, key, key(s[i]))| > 0
  {
    if i > 0 && key(s[0]) != key(s[i]) {
      InWithKey(s[1..], key, i - 1);
    }
  }

  /** Every element among those of key `k` has key `k` and comes from `s`. */
  lemma {:induction false} WithKeyMembers<T>(s: seq<T>, key: T -> int, k: int)
    ensures forall y :: y in WithKey(s, key, k) ==> key(y) == k && y in s
  {
    if |s| > 0 {
      WithKeyMembers(s[1..], key, k);
    }
  }

  /** Dropping the head only affects the elements of the head's key. */
  lemma WithKeyTail<T>(s: seq<T>, key: T -> int, k: int)
    requires |s| > 0
    ensures WithKey(s[1..], key, k)
         == if key(s[0]) == k then WithKey(s, key, k)[1..] else WithKey(s, key, k)
  {
  }

  /** A key present in a sorted sequence is no larger than the key of its head. */
  lemma KeyBoundedByHead<T>(s: seq<T>, key: T -> int, k: int)
    requires SortedDesc(s, key) && |s| > 0
    requires |WithKey(s, key, k)| > 0
    ensures k <= key(s[0])
  {
    WithKeyMembers(s, key, k);
    var y := WithKey(s, key, k)[0];
    assert y in WithKey(s, key, k);
    var i :| 0 <= i < |s| && s[i] == y;
    if i > 0 {
      assert key(s[0]) >= key(s[i]);
    }
  }

  /** Two sorted sequences with the same elements per key start with the same element. */
  lemma SameHead<T>(a: seq<T>, b: seq<T>, key: T -> int)
    requires SortedDesc(a, key) && SortedDesc(b, key)
    requires |a| > 0 && |b| > 0
    requires forall k :: WithKey(a, key, k) == WithKey(b, key, k)
    ensures a[0] == b[0]
  {
    var ka, kb := key(a[0]), key(b[0]);
    InWithKey(a, key, 0);
    assert WithKey(a, key, ka) == WithKey(b, key, ka);
    KeyBoundedByHead(b, key, ka);
    InWithKey(b, key, 0);
    assert WithKey(a, key, kb) == WithKey(b, key, kb);
    KeyBoundedByHead(a, key, kb);
    assert ka == kb;
    HeadLeadsItsKey(a, key);
    HeadLeadsItsKey(b, key);
    assert WithKey(a, key, ka)[0] == a[0];
    assert WithKey(b, key, ka)[0] == b[0];
  }

  /**
   * A sorted sequence is determined by the order of the elements of each
   * key: two sorted sequences that agree on it are equal.
   */
  lemma {:induction false} SortedDeterminedByKeys<T>(a: seq<T>, b: seq<T>, key: T -> int)
    requires SortedDesc(a, key) && SortedDesc(b, key)
    requires forall k :: WithKey(a, key, k) == WithKey(b, key, k)
    ensures a == b
    decreases |a|
  {
    if |a| == 0 {
      if |b| > 0 {
        InWithKey(b, key, 0);
        assert false;
      }
    } else if |b| == 0 {
      InWithKey(a, key, 0);
      assert false;
    } else {
      SameHead(a, b, key);
      forall k
        ensures WithKey(a[1..], key, k) == WithKey(b[1..], key, k)
      {
        WithKeyTail(a, key, k);
        WithKeyTail(b, key, k);
      }
      SortedDeterminedByKeys(a[1..], b[1..], key);
      assert a == [a[0]] + a[1..];
      assert b == [b[0]] + b[1..];
    }
  }

  /**
   * Any sorted sequence that keeps each key's elements in input order is the
   * sort of the input: a stable descending sort has exactly one result.
   */
  lemma SortUnique<T>(s: seq<T>, r: seq<T>, key: T -> int)
    requires SortedDesc(r, key)
    requires forall k :: WithKey(r, key, k) == WithKey(s, key, k)
    ensures r == SortDesc(s, key)
  {
    SortStableAll(s, key);
    SortedDeterminedByKeys(r, SortDesc(s, key), key);
  }

  /** Sorting an already sorted sequence changes nothing. */
  lemma SortSortedIsIdentity<T>(s: seq<T>, key: T -> int)
    requires SortedDesc(s, key)
    ensures SortDesc(s, key) == s
  {
    SortUnique(s, s, key);
  }
}
