/**
 * LINQ's `OrderBy(key)`: a stable sort by a key under a comparison that is a
 * total preorder (the culture-sensitive string comparer is one, and is not
 * modelled beyond that).
 */
module Ordering {

  ghost predicate TotalPreorder<K(!new)>(le: (K, K) -> bool) {
    && (forall a, b :: le(a, b) || le(b, a))
    && (forall a, b, c :: le(a, b) && le(b, c) ==> le(a, c))
  }

  /** Two keys the comparer cannot tell apart. */
  predicate Tied<K>(le: (K, K) -> bool, a: K, b: K) {
    le(a, b) && le(b, a)
  }

  predicate SortedBy<T, K>(s: seq<T>, key: T -> K, le: (K, K) -> bool) {
    forall i, j :: 0 <= i < j < |s| ==> le(key(s[i]), key(s[j]))
  }

  /** The elements of `s` whose key is tied with `k`, in their order in `s`. */
  function TiedWith<T, K>(s: seq<T>, key: T -> K, le: (K, K) -> bool, k: K): (r: seq<T>)
    ensures |r| <= |s|
  {
    if s == [] then []
    else (if Tied(le, key(s[0]), k) then [s[0]] else []) + TiedWith(s[1..], key, le, k)
  }

  /** Put `x` in front of the first element it is not greater than. */
  function Insert<T, K>(x: T, s: seq<T>, key: T -> K, le: (K, K) -> bool): (r: seq<T>)
    ensures multiset(r) == multiset(s) + multiset{x}
  {
    if s == [] then [x]
    else if le(key(x), key(s[0])) then [x] + s
    else (assert s == [s[0]] + s[1..]; [s[0]] + Insert(x, s[1..], key, le))
  }

  /** `s.OrderBy(key)`: insert the elements back to front, so that each one
      lands in front of the elements it is tied with. */
  function StableSort<T, K>(s: seq<T>, key: T -> K, le: (K, K) -> bool): (r: seq<T>)
    ensures multiset(r) == multiset(s)
  {
    if s == [] then []
    else (assert s == [s[0]] + s[1..]; Insert(s[0], StableSort(s[1..], key, le), key, le))
  }

  lemma {:induction false} InsertSorted<T, K(!new)>(x: T, s: seq<T>, key: T -> K, le: (K, K) -> bool)
    requires TotalPreorder(le) && SortedBy(s, key, le)
    ensures SortedBy(Insert(x, s, key, le), key, le)
  {
    if s != [] && !le(key(x), key(s[0])) {
      InsertSorted(x, s[1..], key, le);
      var t := Insert(x, s[1..], key, le);
      assert le(key(s[0]), key(x));
      forall j | 0 <= j < |t| ensures le(key(s[0]), key(t[j])) {
        assert t[j] in multiset(t);
        assert t[j] == x || t[j] in s[1..];
      }
    }
  }

  /** The result of `OrderBy` is in key order. */
  lemma {:induction false} StableSortSorted<T, K(!new)>(s: seq<T>, key: T -> K, le: (K, K) -> bool)
    requires TotalPreorder(le)
    ensures SortedBy(StableSort(s, key, le), key, le)
  {
    if s != [] {
      StableSortSorted(s[1..], key, le);
      InsertSorted(s[0], StableSort(s[1..], key, le), key, le);
    }
  }

  lemma TiedWithCons<T, K>(y: T, t: seq<T>, key: T -> K, le: (K, K) -> bool, k: K)
    ensures TiedWith([y] + t, key, le, k) == (if Tied(le, key(y), k) then [y] else []) + TiedWith(t, key, le, k)
  {
    assert ([y] + t)[0] == y && ([y] + t)[1..] == t;
  }

  /** An element that sorts strictly before `x` is not tied with a key `x` is tied with. */
  lemma NotBothTied<K(!new)>(le: (K, K) -> bool, a: K, x: K, k: K)
    requires TotalPreorder(le) && !le(x, a)
    ensures !(Tied(le, x, k) && Tied(le, a, k))
  {
  }

  lemma SwapHeads<T>(a: seq<T>, b: seq<T>, rest: seq<T>)
    requires a == [] || b == []
    ensures a + (b + rest) == b + (a + rest)
  {
    if a == [] {
      assert a + (b + rest) == b + rest == b + (a + rest);
    } else {
      assert a + (b + rest) == a + rest == b + (a + rest);
    }
  }

  lemma {:induction false} InsertTies<T, K(!new)>(x: T, s: seq<T>, key: T -> K, le: (K, K) -> bool, k: K)
    requires TotalPreorder(le)
    ensures TiedWith(Insert(x, s, key, le), key, le, k)
         == (if Tied(le, key(x), k) then [x] else []) + TiedWith(s, key, le, k)
  {
    if s == [] {
      TiedWithCons(x, [], key, le, k);
    } else if le(key(x), key(s[0])) {
      TiedWithCons(x, s, key, le, k);
    } else {
      var rest := Insert(x, s[1..], key, le);
      assert Insert(x, s, key, le) == [s[0]] + rest;
      InsertTies(x, s[1..], key, le, k);
      TiedWithCons(s[0], rest, key, le, k);
      TiedWithCons(s[0], s[1..], key, le, k);
      assert s == [s[0]] + s[1..];
      NotBothTied(le, key(s[0]), key(x), k);
      SwapHeads(if Tied(le, key(s[0]), k) then [s[0]] else [], if Tied(le, key(x), k) then [x] else [],
                TiedWith(s[1..], key, le, k));
    }
  }

  /** `OrderBy` is stable: elements with tied keys keep their input order. */
  lemma {:induction false} StableSortKeepsTies<T, K(!new)>(s: seq<T>, key: T -> K, le: (K, K) -> bool, k: K)
    requires TotalPreorder(le)
    ensures TiedWith(StableSort(s, key, le), key, le, k) == TiedWith(s, key, le, k)
  {
    if s != [] {
      StableSortKeepsTies(s[1..], key, le, k);
      InsertTies(s[0], StableSort(s[1..], key, le), key, le, k);
    }
  }
}
