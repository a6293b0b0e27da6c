/**
 * src/util/array.ts: `dedupe`, which keeps the first occurrence of every
 * element, and `equal`, which compares two arrays as multisets by sorting
 * copies of them.
 */
module ArrayUtil {

  import opened JsArray

  /**
   * `arr.filter((value, index, self) => self.indexOf(value) === index)`:
   * the elements of `arr` that sit at their first occurrence.
   */
  function Dedupe<T(==)>(arr: seq<T>): (r: seq<T>)
    ensures |r| <= |arr|
  {
    KeepFirstOccurrences(arr, 0)
  }

  /** The filter of `Dedupe` applied to the indices `from` and up. */
  function KeepFirstOccurrences<T(==)>(arr: seq<T>, from: nat): (r: seq<T>)
    requires from <= |arr|
    ensures |r| <= |arr| - from
    decreases |arr| - from
  {
    if from == |arr| then []
    else
      var rest := KeepFirstOccurrences(arr, from + 1);
      if IndexOf(arr, arr[from]) == from then [arr[from]] + rest else rest
  }

  /** The elements of `r` come in the order of their first occurrences in `arr`. */
  predicate InFirstOccurrenceOrder<T(==)>(arr: seq<T>, r: seq<T>) {
    forall i, j :: 0 <= i < j < |r| ==> IndexOf(arr, r[i]) < IndexOf(arr, r[j])
  }

  /**
   * From index `from` on, the filter keeps exactly the elements whose first
   * occurrence is at `from` or later, in the order of those occurrences.
   */
  lemma KeepFirstOccurrencesProperties<T>(arr: seq<T>, from: nat)
    requires from <= |arr|
    ensures forall x :: x in KeepFirstOccurrences(arr, from) ==> x in arr && IndexOf(arr, x) >= from
    ensures forall i :: from <= i < |arr| && IndexOf(arr, arr[i]) >= from ==> arr[i] in KeepFirstOccurrences(arr, from)
    ensures InFirstOccurrenceOrder(arr, KeepFirstOccurrences(arr, from))
  {
    KeepFirstOccurrencesKept(arr, from);
    KeepFirstOccurrencesComplete(arr, from);
    KeepFirstOccurrencesOrdered(arr, from);
  }

  /** Every kept element has its first occurrence at `from` or later. */
  lemma {:induction false} KeepFirstOccurrencesKept<T>(arr: seq<T>, from: nat)
    requires from <= |arr|
    ensures forall x :: x in KeepFirstOccurrences(arr, from) ==> IndexOf(arr, x) >= from
    decreases |arr| - from
  {
    if from < |arr| {
      KeepFirstOccurrencesKept(arr, from + 1);
      IndexOfFirst(arr, arr[from], from);
    }
  }

  /** Every element whose first occurrence is at `from` or later is kept. */
  lemma {:induction false} KeepFirstOccurrencesComplete<T>(arr: seq<T>, from: nat)
    requires from <= |arr|
    ensures forall i :: from <= i < |arr| && IndexOf(arr, arr[i]) >= from ==> arr[i] in KeepFirstOccurrences(arr, from)
    decreases |arr| - from
  {
    if from < |arr| {
      KeepFirstOccurrencesComplete(arr, from + 1);
      IndexOfFirst(arr, arr[from], from);
      var r := KeepFirstOccurrences(arr, from);
      forall i | from <= i < |arr| && IndexOf(arr, arr[i]) >= from
        ensures arr[i] in r
      {
        if i > from && IndexOf(arr, arr[i]) == from {
          assert arr[i] == arr[from];
        }
      }
    }
  }

  /** The kept elements come in the order of their first occurrences. */
  lemma {:induction false} KeepFirstOccurrencesOrdered<T>(arr: seq<T>, from: nat)
    requires from <= |arr|
    ensures InFirstOccurrenceOrder(arr, KeepFirstOccurrences(arr, from))
    decreases |arr| - from
  {
    if from < |arr| {
      KeepFirstOccurrencesOrdered(arr, from + 1);
      if IndexOf(arr, arr[from]) == from {
        KeepFirstOccurrencesKept(arr, from + 1);
        OrderedCons(arr, arr[from], KeepFirstOccurrences(arr, from + 1));
      }
    }
  }

  /** Putting an element whose first occurrence comes earliest in front keeps the order. */
  lemma OrderedCons<T>(arr: seq<T>, x: T, rest: seq<T>)
    requires forall y :: y in rest ==> IndexOf(arr, x) < IndexOf(arr, y)
    requires InFirstOccurrenceOrder(arr, rest)
    ensures InFirstOccurrenceOrder(arr, [x] + rest)
  {
    var r := [x] + rest;
    forall i, j | 0 <= i < j < |r|
      ensures IndexOf(arr, r[i]) < IndexOf(arr, r[j])
    {
      assert r[j] == rest[j - 1];
      if i > 0 {
        assert r[i] == rest[i - 1];
      }
    }
  }

  /**
   * `dedupe` has no element twice, holds exactly the elements of its input,
   * and lists them in the order of their first occurrences.
   */
  lemma DedupeProperties<T>(arr: seq<T>)
    ensures NoDuplicates(Dedupe(arr))
    ensures forall x :: x in Dedupe(arr) <==> x in arr
    ensures InFirstOccurrenceOrder(arr, Dedupe(arr))
  {
    var r := Dedupe(arr);
    KeepFirstOccurrencesProperties(arr, 0);
    forall x | x in arr ensures x in r {
      var i :| 0 <= i < |arr| && arr[i] == x;
    }
    forall i, j | 0 <= i < j < |r| ensures r[i] != r[j] {
      assert IndexOf(arr, r[i]) < IndexOf(arr, r[j]);
    }
  }

  lemma {:induction false} KeepFirstOccurrencesAll<T>(arr: seq<T>, from: nat)
    requires from <= |arr| && NoDuplicates(arr)
    ensures KeepFirstOccurrences(arr, from) == arr[from..]
    decreases |arr| - from
  {
    if from < |arr| {
      KeepFirstOccurrencesAll(arr, from + 1);
      var k := IndexOf(arr, arr[from]);
      IndexOfFirst(arr, arr[from], from);
      assert arr[k] == arr[from];
      assert k == from;
      assert arr[from..] == [arr[from]] + arr[from + 1..];
    }
  }

  /** On an array without duplicates `dedupe` changes nothing; so it is idempotent. */
  lemma DedupeIdentity<T>(arr: seq<T>)
    requires NoDuplicates(arr)
    ensures Dedupe(arr) == arr
  {
    KeepFirstOccurrencesAll(arr, 0);
  }

  lemma DedupeIdempotent<T>(arr: seq<T>)
    ensures Dedupe(Dedupe(arr)) == Dedupe(arr)
  {
    DedupeProperties(arr);
    DedupeIdentity(Dedupe(arr));
  }

  lemma {:induction false} KeepFirstOccurrencesSnoc<T>(s: seq<T>, x: T, from: nat)
    requires from <= |s|
    ensures KeepFirstOccurrences(s + [x], from)
         == KeepFirstOccurrences(s, from) + (if x in s then [] else [x])
    decreases |s| - from
  {
    var t := s + [x];
    if from == |s| {
      if x in s {
        IndexOfFirst(t, x, IndexOf(s, x));
      } else {
        assert IndexOf(t, x) == |s|;
      }
      assert KeepFirstOccurrences(t, |s| + 1) == [];
    } else {
      KeepFirstOccurrencesSnoc(s, x, from + 1);
      KeepFirstOccurrencesSnocStep(s, x, from);
    }
  }

  /** The step of KeepFirstOccurrencesSnoc at an index of `s`. */
  lemma KeepFirstOccurrencesSnocStep<T>(s: seq<T>, x: T, from: nat)
    requires from < |s|
    requires KeepFirstOccurrences(s + [x], from + 1)
          == KeepFirstOccurrences(s, from + 1) + (if x in s then [] else [x])
    ensures KeepFirstOccurrences(s + [x], from)
         == KeepFirstOccurrences(s, from) + (if x in s then [] else [x])
  {
    var t := s + [x];
    assert t[from] == s[from];
    IndexOfAppend(s, [x], s[from]);
    var tail := if x in s then [] else [x];
    if IndexOf(s, s[from]) == from {
      calc {
        KeepFirstOccurrences(t, from);
        [s[from]] + KeepFirstOccurrences(t, from + 1);
        [s[from]] + (KeepFirstOccurrences(s, from + 1) + tail);
        ([s[from]] + KeepFirstOccurrences(s, from + 1)) + tail;
      }
    }
  }

  /** Appending one element adds it at the end exactly when it is new. */
  lemma DedupeSnoc<T>(s: seq<T>, x: T)
    ensures Dedupe(s + [x]) == Dedupe(s) + (if x in s then [] else [x])
  {
    KeepFirstOccurrencesSnoc(s, x, 0);
  }

  /** `dedupe(s)` is the beginning of `dedupe(s.concat(t))`. */
  lemma {:induction false} DedupePrefix<T>(s: seq<T>, t: seq<T>)
    ensures |Dedupe(s)| <= |Dedupe(s + t)|
    ensures Dedupe(s + t)[..|Dedupe(s)|] == Dedupe(s)
    decreases |t|
  {
    if t == [] {
      assert s + t == s;
    } else {
      var init := t[..|t| - 1];
      DedupePrefix(s, init);
      assert s + t == (s + init) + [t[|t| - 1]];
      DedupeSnoc(s + init, t[|t| - 1]);
    }
  }

  /** `a` sorts before `b`, or equals it, in the character order the copies are sorted by. */
  predicate LexLe(a: string, b: string) {
    a == [] || (b != [] && (a[0] < b[0] || (a[0] == b[0] && LexLe(a[1..], b[1..]))))
  }

  lemma {:induction false} LexLeReflexive(a: string)
    ensures LexLe(a, a)
  {
    if a != [] {
      LexLeReflexive(a[1..]);
    }
  }

  lemma {:induction false} LexLeTotal(a: string, b: string)
    ensures LexLe(a, b) || LexLe(b, a)
  {
    if a != [] && b != [] && a[0] == b[0] {
      LexLeTotal(a[1..], b[1..]);
    }
  }

  lemma {:induction false} LexLeAntisymmetric(a: string, b: string)
    requires LexLe(a, b) && LexLe(b, a)
    ensures a == b
  {
    if a != [] && b != [] {
      LexLeAntisymmetric(a[1..], b[1..]);
      assert a == [a[0]] + a[1..] && b == [b[0]] + b[1..];
    }
  }

  lemma {:induction false} LexLeTransitive(a: string, b: string, c: string)
    requires LexLe(a, b) && LexLe(b, c)
    ensures LexLe(a, c)
  {
    if a != [] && b != [] && c != [] && a[0] == b[0] && b[0] == c[0] {
      LexLeTransitive(a[1..], b[1..], c[1..]);
    }
  }

  predicate LexSorted(s: seq<string>) {
    forall i, j :: 0 <= i < j < |s| ==> LexLe(s[i], s[j])
  }

  /** Places `x` before the first element of `s` that is not smaller. */
  function InsertLex(x: string, s: seq<string>): (r: seq<string>)
    ensures |r| == |s| + 1
    ensures multiset(r) == multiset(s) + multiset{x}
  {
    if s == [] || LexLe(x, s[0]) then [x] + s
    else
      assert s == [s[0]] + s[1..];
      [s[0]] + InsertLex(x, s[1..])
  }

  /** Inserting into a sorted list keeps it sorted. */
  lemma {:induction false} InsertLexSorted(x: string, s: seq<string>)
    requires LexSorted(s)
    ensures LexSorted(InsertLex(x, s))
    ensures InsertLex(x, s)[0] == x || (s != [] && InsertLex(x, s)[0] == s[0])
  {
    if s == [] || LexLe(x, s[0]) {
      forall j | 0 < j < |s| ensures LexLe(x, s[j]) {
        LexLeTransitive(x, s[0], s[j]);
      }
    } else {
      LexLeTotal(x, s[0]);
      InsertLexSorted(x, s[1..]);
      var rest := InsertLex(x, s[1..]);
      var r := InsertLex(x, s);
      assert r == [s[0]] + rest;
      forall j | 0 < j < |rest| ensures LexLe(s[0], rest[j]) {
        LexLeTransitive(s[0], rest[0], rest[j]);
      }
      forall i, j | 0 <= i < j < |r| ensures LexLe(r[i], r[j]) {
        if i == 0 {
          assert r[j] == rest[j - 1];
        } else {
          assert r[i] == rest[i - 1] && r[j] == rest[j - 1];
        }
      }
    }
  }

  /** `arr.concat().sort()` on strings: a copy holding the same elements, the argument untouched. */
  function SortStrings(s: seq<string>): (r: seq<string>)
    ensures |r| == |s|
    ensures multiset(r) == multiset(s)
  {
    if s == [] then []
    else
      assert s == [s[0]] + s[1..];
      InsertLex(s[0], SortStrings(s[1..]))
  }

  /** The copy is sorted. */
  lemma {:induction false} SortStringsSorted(s: seq<string>)
    ensures LexSorted(SortStrings(s))
  {
    if s != [] {
      SortStringsSorted(s[1..]);
      InsertLexSorted(s[0], SortStrings(s[1..]));
    }
  }

  /** The sorted copies of two lists are equal exactly when the lists hold the same elements. */
  lemma SortStringsEqual(a: seq<string>, b: seq<string>)
    ensures SortStrings(a) == SortStrings(b) <==> multiset(a) == multiset(b)
  {
    if multiset(a) == multiset(b) {
      SortStringsSorted(a);
      SortStringsSorted(b);
      LexSortedUnique(SortStrings(a), SortStrings(b));
    }
  }

  /** The first elements of two sorted sequences with the same elements agree. */
  lemma LexSortedSameHead(a: seq<string>, b: seq<string>)
    requires LexSorted(a) && LexSorted(b) && multiset(a) == multiset(b) && a != []
    ensures b != [] && a[0] == b[0]
  {
    assert a[0] in multiset(b) && b != [];
    assert b[0] in multiset(a);
    var i :| 0 <= i < |a| && a[i] == b[0];
    var j :| 0 <= j < |b| && b[j] == a[0];
    if i > 0 && j > 0 {
      assert LexLe(a[0], a[i]) && LexLe(b[0], b[j]);
      LexLeAntisymmetric(a[0], b[0]);
    }
  }

  /** Dropping equal heads keeps both sequences sorted and their elements equal. */
  lemma LexSortedTails(a: seq<string>, b: seq<string>)
    requires LexSorted(a) && LexSorted(b) && multiset(a) == multiset(b)
    requires a != [] && b != [] && a[0] == b[0]
    ensures LexSorted(a[1..]) && LexSorted(b[1..]) && multiset(a[1..]) == multiset(b[1..])
  {
    MultisetRemoveAt(a, b, 0);
    assert b[..0] + b[1..] == b[1..];
  }

  /** Two sorted sequences with the same elements are the same sequence. */
  lemma {:induction false} LexSortedUnique(a: seq<string>, b: seq<string>)
    requires LexSorted(a) && LexSorted(b) && multiset(a) == multiset(b)
    ensures a == b
    decreases |a|
  {
    if a == [] {
      assert |b| == |multiset(b)| == 0;
    } else {
      LexSortedSameHead(a, b);
      LexSortedTails(a, b);
      LexSortedUnique(a[1..], b[1..]);
      SameHeadTail(a, b);
    }
  }

  /** Two lists that agree up to `i` and at `i` agree up to `i + 1`. */
  lemma SamePrefixNext(x: seq<string>, y: seq<string>, i: nat)
    requires i < |x| && i < |y| && x[..i] == y[..i] && x[i] == y[i]
    ensures x[..i + 1] == y[..i + 1]
  {
    assert x[..i + 1] == x[..i] + [x[i]];
    assert y[..i + 1] == y[..i] + [y[i]];
  }

  /**
   * `equal(a, b)`: the same array, or the same length and equal sorted
   * copies. It holds exactly when `a` and `b` hold the same elements the same
   * number of times, and it leaves both arrays unchanged.
   */
  method Equal(a: array<string>, b: array<string>) returns (r: bool)
    ensures r <==> multiset(a[..]) == multiset(b[..])
    ensures a.Length != b.Length ==> !r
  {
    if a == b {
      return true;
    }
    if a.Length != b.Length {
      assert multiset(a[..]) != multiset(b[..]) by {
        assert |multiset(a[..])| == a.Length != b.Length == |multiset(b[..])|;
      }
      return false;
    }
    var aSorted := SortStrings(a[..]);
    var bSorted := SortStrings(b[..]);
    SortStringsEqual(a[..], b[..]);
    for i := 0 to |aSorted|
      invariant aSorted[..i] == bSorted[..i]
    {
      if aSorted[i] != bSorted[i] {
        return false;
      }
      SamePrefixNext(aSorted, bSorted, i);
    }
    assert aSorted == aSorted[..|aSorted|] && bSorted == bSorted[..|bSorted|];
    return true;
  }

  /** `equal` holds for an array and itself, and does not depend on the order of its arguments. */
  method EqualSymmetric(a: array<string>, b: array<string>) returns (ab: bool, ba: bool, aa: bool)
    ensures ab == ba
    ensures aa
  {
    ab := Equal(a, b);
    ba := Equal(b, a);
    aa := Equal(a, a);
  }
}
