/**
 * The JavaScript array built-ins the extension relies on: `indexOf`, and
 * `sort` with a comparator of the form `(a, b) => key(a) - key(b)`, which
 * the language defines to be stable.
 */
module JsArray {

  /** `Array.prototype.indexOf`: the first index that holds `x`, or -1. */
  function IndexOf<T(==)>(s: seq<T>, x: T): (r: int)
    ensures -1 <= r < |s|
    ensures r == -1 <==> x !in s
    ensures r >= 0 ==> s[r] == x
  {
    if |s| == 0 then -1
    else if s[0] == x then 0
    else
      var k := IndexOf(s[1..], x);
      assert s == [s[0]] + s[1..];
      if k == -1 then -1 else k + 1
  }

  /** No index before the one `IndexOf` returns holds `x`. */
  lemma {:induction false} IndexOfFirst<T>(s: seq<T>, x: T, j: nat)
    requires j < |s| && s[j] == x
    ensures 0 <= IndexOf(s, x) <= j
  {
    if s[0] != x {
      IndexOfFirst(s[1..], x, j - 1);
    }
  }

  /** The first index of an element that occurs in `s` is not disturbed by appending. */
  lemma IndexOfAppend<T>(s: seq<T>, t: seq<T>, x: T)
    requires x in s
    ensures IndexOf(s + t, x) == IndexOf(s, x)
  {
    var r, q := IndexOf(s + t, x), IndexOf(s, x);
    IndexOfFirst(s + t, x, q);
    if r < q {
      IndexOfFirst(s, x, r);
    }
  }

  /** Sequences agree when their heads and their tails do. */
  lemma SameHeadTail<T>(a: seq<T>, b: seq<T>)
    requires a != [] && b != [] && a[0] == b[0] && a[1..] == b[1..]
    ensures a == b
  {
    assert a == [a[0]] + a[1..] && b == [b[0]] + b[1..];
  }

  /** Matching the head of `a` with an equal element of `b` leaves two equal multisets. */
  lemma MultisetRemoveAt<T>(a: seq<T>, b: seq<T>, j: nat)
    requires multiset(a) == multiset(b) && a != [] && j < |b| && b[j] == a[0]
    ensures multiset(a[1..]) == multiset(b[..j] + b[j + 1..])
  {
    assert b == b[..j] + [b[j]] + b[j + 1..];
    assert a == [a[0]] + a[1..];
    calc {
      multiset(a[1..]);
      multiset(a) - multiset{a[0]};
      multiset(b) - multiset{a[0]};
      multiset(b[..j]) + multiset(b[j + 1..]);
      multiset(b[..j] + b[j + 1..]);
    }
  }

  /** No element occurs twice. */
  predicate NoDuplicates<T(==)>(s: seq<T>) {
    forall i, j :: 0 <= i < j < |s| ==> s[i] != s[j]
  }

  /** `key` never decreases along `s`. */
  predicate SortedBy<T>(s: seq<T>, key: T -> int) {
    forall i, j :: 0 <= i < j < |s| ==> key(s[i]) <= key(s[j])
  }

  /** The elements of `s` whose key is `k`, in their order in `s`. */
  function WithKey<T>(s: seq<T>, key: T -> int, k: int): seq<T> {
    if s == [] then [] else (if key(s[0]) == k then [s[0]] else []) + WithKey(s[1..], key, k)
  }

  /** Places `x` in front of the first element of `s` whose key is not smaller. */
  function InsertBy<T>(x: T, s: seq<T>, key: T -> int): (r: seq<T>)
    ensures |r| == |s| + 1
  {
    if s == [] || key(x) <= key(s[0]) then [x] + s
    else [s[0]] + InsertBy(x, s[1..], key)
  }

  /** Inserting into a sorted sequence keeps it sorted; the head is `x` or the old head. */
  lemma {:induction false} InsertBySorted<T>(x: T, s: seq<T>, key: T -> int)
    requires SortedBy(s, key)
    ensures SortedBy(InsertBy(x, s, key), key)
    ensures InsertBy(x, s, key)[0] == x || (s != [] && InsertBy(x, s, key)[0] == s[0])
  {
    if s != [] && key(s[0]) < key(x) {
      InsertBySorted(x, s[1..], key);
      var rest := InsertBy(x, s[1..], key);
      assert key(s[0]) <= key(rest[0]);
      var r := [s[0]] + rest;
      forall i, j | 0 <= i < j < |r|
        ensures key(r[i]) <= key(r[j])
      {
        if i > 0 {
          assert r[i] == rest[i - 1] && r[j] == rest[j - 1];
        } else {
          assert r[j] == rest[j - 1];
        }
      }
    }
  }

  /** Inserting adds `x` and nothing else. */
  lemma {:induction false} InsertByPermutation<T>(x: T, s: seq<T>, key: T -> int)
    ensures multiset(InsertBy(x, s, key)) == multiset(s) + multiset{x}
  {
    if s != [] && key(s[0]) < key(x) {
      InsertByPermutation(x, s[1..], key);
      assert s == [s[0]] + s[1..];
    }
  }

  /**
   * `Array.prototype.sort` with the comparator `(a, b) => key(a) - key(b)`:
   * an insertion sort, stable like the built-in.
   */
  function StableSortBy<T>(s: seq<T>, key: T -> int): (r: seq<T>)
    ensures |r| == |s|
  {
    if s == [] then [] else InsertBy(s[0], StableSortBy(s[1..], key), key)
  }

  /** The sorted copy is in non-decreasing key order. */
  lemma {:induction false} StableSortByOrdered<T>(s: seq<T>, key: T -> int)
    ensures SortedBy(StableSortBy(s, key), key)
  {
    if s != [] {
      StableSortByOrdered(s[1..], key);
      InsertBySorted(s[0], StableSortBy(s[1..], key), key);
    }
  }

  /** The sorted copy holds the same elements, each as often. */
  lemma {:induction false} StableSortByPermutation<T>(s: seq<T>, key: T -> int)
    ensures multiset(StableSortBy(s, key)) == multiset(s)
  {
    if s != [] {
      StableSortByPermutation(s[1..], key);
      InsertByPermutation(s[0], StableSortBy(s[1..], key), key);
      assert s == [s[0]] + s[1..];
    }
  }

  lemma {:induction false} InsertByWithKey<T>(x: T, s: seq<T>, key: T -> int, k: int)
    ensures WithKey(InsertBy(x, s, key), key, k) == (if key(x) == k then [x] else []) + WithKey(s, key, k)
  {
    if s == [] || key(x) <= key(s[0]) {
      assert ([x] + s)[1..] == s;
    } else {
      InsertByWithKey(x, s[1..], key, k);
      WithKeyPastHead(x, s, key, k);
    }
  }

  /** The step of InsertByWithKey where `x` goes past the head of `s`. */
  lemma WithKeyPastHead<T>(x: T, s: seq<T>, key: T -> int, k: int)
    requires s != [] && key(s[0]) < key(x)
    requires WithKey(InsertBy(x, s[1..], key), key, k) == (if key(x) == k then [x] else []) + WithKey(s[1..], key, k)
    ensures WithKey(InsertBy(x, s, key), key, k) == (if key(x) == k then [x] else []) + WithKey(s, key, k)
  {
    var rest := InsertBy(x, s[1..], key);
    assert InsertBy(x, s, key) == [s[0]] + rest;
    WithKeyCons(s[0], rest, key, k);
    WithKeyCons(s[0], s[1..], key, k);
    assert [s[0]] + s[1..] == s;
    if key(s[0]) == k {
      assert key(x) != k;
    }
  }

  lemma WithKeyCons<T>(y: T, t: seq<T>, key: T -> int, k: int)
    ensures WithKey([y] + t, key, k) == (if key(y) == k then [y] else []) + WithKey(t, key, k)
  {
    assert ([y] + t)[1..] == t;
  }

  /** Stability: the elements that share a key come out in their input order. */
  lemma {:induction false} StableSortByWithKey<T>(s: seq<T>, key: T -> int, k: int)
    ensures WithKey(StableSortBy(s, key), key, k) == WithKey(s, key, k)
  {
    if s != [] {
      StableSortByWithKey(s[1..], key, k);
      InsertByWithKey(s[0], StableSortBy(s[1..], key), key, k);
    }
  }

  /** Sorting a sequence that is already sorted changes nothing. */
  lemma {:induction false} StableSortBySorted<T>(s: seq<T>, key: T -> int)
    requires SortedBy(s, key)
    ensures StableSortBy(s, key) == s
  {
    if s != [] {
      StableSortBySorted(s[1..], key);
      assert s == [s[0]] + s[1..];
    }
  }

  lemma {:induction false} WithKeyAppend<T>(a: seq<T>, b: seq<T>, key: T -> int, k: int)
    ensures WithKey(a + b, key, k) == WithKey(a, key, k) + WithKey(b, key, k)
  {
    if a != [] {
      WithKeyAppend(a[1..], b, key, k);
      assert (a + b)[1..] == a[1..] + b;
    } else {
      assert a + b == b;
    }
  }

  /** Two keys that agree on every element of `s` pick out the same elements. */
  lemma {:induction false} WithKeyAgree<T>(s: seq<T>, key1: T -> int, key2: T -> int, k: int)
    requires forall i :: 0 <= i < |s| ==> key1(s[i]) == key2(s[i])
    ensures WithKey(s, key1, k) == WithKey(s, key2, k)
  {
    if s != [] {
      WithKeyAgree(s[1..], key1, key2, k);
    }
  }

  /** In a sorted sequence, a key that occurs is not below the key of the head. */
  lemma {:induction false} WithKeyNonEmpty<T>(s: seq<T>, key: T -> int, k: int)
    requires SortedBy(s, key) && WithKey(s, key, k) != []
    ensures s != [] && key(s[0]) <= k
  {
    if key(s[0]) != k {
      WithKeyNonEmpty(s[1..], key, k);
    }
  }

  /**
   * A sorted sequence is determined by the elements it holds under each key
   * in order: this is what makes a stable sort's result unique.
   */
  lemma {:induction false} SortedByUnique<T>(a: seq<T>, b: seq<T>, key: T -> int)
    requires SortedBy(a, key) && SortedBy(b, key)
    requires forall k :: WithKey(a, key, k) == WithKey(b, key, k)
    ensures a == b
    decreases |a|
  {
    SortedByUniqueHead(a, b, key);
    if a != [] {
      SortedByUniqueTails(a, b, key);
      SortedByUnique(a[1..], b[1..], key);
      SameHeadTail(a, b);
    }
  }

  /** Two such sequences are empty together, and otherwise have the same head. */
  lemma SortedByUniqueHead<T>(a: seq<T>, b: seq<T>, key: T -> int)
    requires SortedBy(a, key) && SortedBy(b, key)
    requires forall k :: WithKey(a, key, k) == WithKey(b, key, k)
    ensures a != [] <==> b != []
    ensures a != [] ==> a[0] == b[0]
  {
    assert a != [] ==> WithKey(a, key, key(a[0])) != [];
    assert b != [] ==> WithKey(b, key, key(b[0])) != [];
    if a != [] && b != [] {
      WithKeyNonEmpty(b, key, key(a[0]));
      WithKeyNonEmpty(a, key, key(b[0]));
      assert WithKey(a, key, key(a[0]))[0] == a[0];
      assert WithKey(b, key, key(b[0]))[0] == b[0];
    }
  }

  /** Dropping the common head keeps both sequences sorted, with the same elements under every key. */
  lemma SortedByUniqueTails<T>(a: seq<T>, b: seq<T>, key: T -> int)
    requires SortedBy(a, key) && SortedBy(b, key)
    requires a != [] && b != [] && a[0] == b[0]
    requires forall k :: WithKey(a, key, k) == WithKey(b, key, k)
    ensures SortedBy(a[1..], key) && SortedBy(b[1..], key)
    ensures forall k :: WithKey(a[1..], key, k) == WithKey(b[1..], key, k)
  {
    forall k
      ensures WithKey(a[1..], key, k) == WithKey(b[1..], key, k)
    {
      WithKeyTail(a, key, k);
      WithKeyTail(b, key, k);
    }
  }

  /** What is left under key `k` once the head of `s` is dropped. */
  lemma WithKeyTail<T>(s: seq<T>, key: T -> int, k: int)
    requires s != []
    ensures WithKey(s[1..], key, k) == if key(s[0]) == k then WithKey(s, key, k)[1..] else WithKey(s, key, k)
  {
  }

  /** Any sorted rearrangement that keeps every key's elements in input order is the stable sort. */
  lemma StableSortByUnique<T>(s: seq<T>, r: seq<T>, key: T -> int)
    requires SortedBy(r, key)
    requires forall k :: WithKey(r, key, k) == WithKey(s, key, k)
    ensures r == StableSortBy(s, key)
  {
    forall k
      ensures WithKey(StableSortBy(s, key), key, k) == WithKey(s, key, k)
    {
      StableSortByWithKey(s, key, k);
    }
    StableSortByOrdered(s, key);
    SortedByUnique(r, StableSortBy(s, key), key);
  }

  /** An element that occurs twice is counted twice. */
  lemma NoDuplicatesCount<T>(s: seq<T>, x: T)
    requires NoDuplicates(s)
    ensures multiset(s)[x] <= 1
    decreases |s|
  {
    if s != [] {
      assert s == [s[0]] + s[1..];
      NoDuplicatesCount(s[1..], x);
      if s[0] == x {
        assert x !in s[1..];
      }
    }
  }

  /** Rearranging a sequence without duplicates gives one without duplicates. */
  lemma NoDuplicatesPermutation<T>(a: seq<T>, b: seq<T>)
    requires NoDuplicates(a) && multiset(a) == multiset(b)
    ensures NoDuplicates(b)
  {
    forall i, j | 0 <= i < j < |b|
      ensures b[i] != b[j]
    {
      NoDuplicatesCount(a, b[i]);
      CountRepeated(b, i, j);
    }
  }

  lemma CountRepeated<T>(s: seq<T>, i: nat, j: nat)
    requires i < j < |s|
    ensures s[i] == s[j] ==> multiset(s)[s[i]] >= 2
  {
    assert s == s[..i] + [s[i]] + s[i + 1..j] + [s[j]] + s[j + 1..];
  }

  /** Three elements with increasing keys, given in reverse, are sorted into key order. */
  lemma StableSortByReversedThree<T>(x: T, y: T, z: T, key: T -> int)
    requires key(x) < key(y) < key(z)
    ensures StableSortBy([z, y, x], key) == [x, y, z]
  {
    assert [z, y, x][1..] == [y, x] && [y, x][1..] == [x] && [x][1..] == [];
    assert StableSortBy([x], key) == [x];
    assert [x, y][1..] == [y] && [y][1..] == [];
    assert InsertBy(y, [x], key) == [x] + InsertBy(y, [], key) == [x, y];
    assert InsertBy(z, [x, y], key) == [x] + InsertBy(z, [y], key);
    assert InsertBy(z, [y], key) == [y] + InsertBy(z, [], key) == [y, z];
  }
}
