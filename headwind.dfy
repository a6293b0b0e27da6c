/**
 * src/headwind.ts: the class sorter (`sortClassString`, `sortClassArray`,
 * `removeDuplicates`) and the `tailwindCSS.headwind.sortTailwindClasses`
 * command, which turns every match of the class-wrapper regex into an edit
 * that replaces the matched class list by its sorted form.
 */
module Headwind {

  import opened Wrappers
  import opened JsArray
  import opened JsString
  import opened ArrayUtil

  // ---- removeDuplicates ----

  /**
   * The tokens of `s` that are not in `seen` and not repeated earlier in `s`:
   * what iterating `s` into a `Set` that already holds `seen` adds, in
   * insertion order.
   */
  function InsertNew(s: seq<string>, seen: set<string>): (r: seq<string>)
    ensures forall i :: 0 <= i < |r| ==> r[i] !in seen && r[i] in s
  {
    if s == [] then []
    else if s[0] in seen then InsertNew(s[1..], seen)
    else [s[0]] + InsertNew(s[1..], seen + {s[0]})
  }

  /** `[...new Set(classArray)]`: a `Set` iterates in insertion order. */
  function RemoveDuplicates(classArray: seq<string>): (r: seq<string>)
    ensures forall i :: 0 <= i < |r| ==> r[i] in classArray
  {
    InsertNew(classArray, {})
  }

  lemma {:induction false} InsertNewSnoc(s: seq<string>, x: string, seen: set<string>)
    ensures InsertNew(s + [x], seen) == InsertNew(s, seen) + (if x in s || x in seen then [] else [x])
    decreases |s|
  {
    if s == [] {
      assert [] + [x] == [x];
    } else {
      assert (s + [x])[1..] == s[1..] + [x];
      assert x in s <==> x == s[0] || x in s[1..];
      if s[0] in seen {
        InsertNewSnoc(s[1..], x, seen);
      } else {
        InsertNewSnoc(s[1..], x, seen + {s[0]});
      }
    }
  }

  /**
   * `removeDuplicates` (a `Set` round trip) and `dedupe` of src/util/array.ts
   * (an `indexOf` filter) are the same function: the first occurrence of
   * every token, in input order.
   */
  lemma {:induction false} RemoveDuplicatesIsDedupe(classArray: seq<string>)
    ensures RemoveDuplicates(classArray) == Dedupe(classArray)
    decreases |classArray|
  {
    if classArray != [] {
      var init, x := classArray[..|classArray| - 1], classArray[|classArray| - 1];
      assert classArray == init + [x];
      RemoveDuplicatesIsDedupe(init);
      InsertNewSnoc(init, x, {});
      DedupeSnoc(init, x);
    }
  }

  // ---- sortClassArray ----

  /** `classArray.filter((el) => sortOrder.indexOf(el) !== -1)`. */
  function Ranked(classArray: seq<string>, sortOrder: seq<string>): (r: seq<string>)
    ensures forall i :: 0 <= i < |r| ==> r[i] in sortOrder
  {
    if classArray == [] then []
    else (if IndexOf(sortOrder, classArray[0]) != -1 then [classArray[0]] else [])
         + Ranked(classArray[1..], sortOrder)
  }

  /** `classArray.filter((el) => sortOrder.indexOf(el) === -1)`. */
  function Unranked(classArray: seq<string>, sortOrder: seq<string>): (r: seq<string>)
    ensures forall i :: 0 <= i < |r| ==> r[i] !in sortOrder
  {
    if classArray == [] then []
    else (if IndexOf(sortOrder, classArray[0]) == -1 then [classArray[0]] else [])
         + Unranked(classArray[1..], sortOrder)
  }

  /** The comparator `(a, b) => sortOrder.indexOf(a) - sortOrder.indexOf(b)`, as a key. */
  function Rank(sortOrder: seq<string>): string -> int {
    t => IndexOf(sortOrder, t)
  }

  /**
   * The position a token ends up at: its rank, and one past the last rank
   * for a token the order does not list.
   */
  function SortKey(sortOrder: seq<string>): string -> int {
    t => if IndexOf(sortOrder, t) == -1 then |sortOrder| else IndexOf(sortOrder, t)
  }

  /** Ranked tokens first, stably sorted by rank, then the unranked ones in input order. */
  function SortClassArray(classArray: seq<string>, sortOrder: seq<string>): seq<string> {
    StableSortBy(Ranked(classArray, sortOrder), Rank(sortOrder)) + Unranked(classArray, sortOrder)
  }

  lemma {:induction false} RankedUnrankedPartition(classArray: seq<string>, sortOrder: seq<string>)
    ensures multiset(Ranked(classArray, sortOrder)) + multiset(Unranked(classArray, sortOrder))
         == multiset(classArray)
  {
    if classArray != [] {
      RankedUnrankedPartition(classArray[1..], sortOrder);
      assert classArray == [classArray[0]] + classArray[1..];
    }
  }

  /** `sortClassArray` neither adds, drops nor duplicates a token. */
  lemma SortClassArrayPermutation(classArray: seq<string>, sortOrder: seq<string>)
    ensures multiset(SortClassArray(classArray, sortOrder)) == multiset(classArray)
  {
    RankedUnrankedPartition(classArray, sortOrder);
    StableSortByPermutation(Ranked(classArray, sortOrder), Rank(sortOrder));
  }

  /** The sorted ranked tokens are all listed in the order. */
  lemma SortedRankedListed(ranked: seq<string>, sortOrder: seq<string>, a: seq<string>)
    requires forall i :: 0 <= i < |ranked| ==> ranked[i] in sortOrder
    requires multiset(a) == multiset(ranked)
    ensures forall i :: 0 <= i < |a| ==> IndexOf(sortOrder, a[i]) != -1
  {
    forall i | 0 <= i < |a|
      ensures IndexOf(sortOrder, a[i]) != -1
    {
      assert a[i] in multiset(ranked);
    }
  }

  /**
   * Every ranked token comes before every unranked one, and the ranked ones
   * are in non-decreasing rank order.
   */
  lemma SortClassArrayOrdered(classArray: seq<string>, sortOrder: seq<string>)
    ensures SortedBy(SortClassArray(classArray, sortOrder), SortKey(sortOrder))
  {
    var a := StableSortBy(Ranked(classArray, sortOrder), Rank(sortOrder));
    var b := Unranked(classArray, sortOrder);
    StableSortByOrdered(Ranked(classArray, sortOrder), Rank(sortOrder));
    StableSortByPermutation(Ranked(classArray, sortOrder), Rank(sortOrder));
    SortedRankedListed(Ranked(classArray, sortOrder), sortOrder, a);
    var r := a + b;
    var key := SortKey(sortOrder);
    forall i, j | 0 <= i < j < |r|
      ensures key(r[i]) <= key(r[j])
    {
      if j < |a| {
        assert r[i] == a[i] && r[j] == a[j];
        assert Rank(sortOrder)(a[i]) <= Rank(sortOrder)(a[j]);
        assert key(a[i]) == Rank(sortOrder)(a[i]) && key(a[j]) == Rank(sortOrder)(a[j]);
      } else if i >= |a| {
        assert r[i] == b[i - |a|] && r[j] == b[j - |a|];
        assert key(r[i]) == |sortOrder| == key(r[j]);
      } else {
        assert r[i] == a[i] && r[j] == b[j - |a|];
        assert key(r[i]) < |sortOrder| == key(r[j]);
      }
    }
  }

  /** Selecting by sort key is selecting by rank, with the unranked tokens at key `|sortOrder|`. */
  lemma {:induction false} WithSortKey(s: seq<string>, sortOrder: seq<string>, k: int)
    ensures WithKey(s, SortKey(sortOrder), k)
         == if k == |sortOrder| then WithKey(s, Rank(sortOrder), -1)
            else if k == -1 then [] else WithKey(s, Rank(sortOrder), k)
  {
    if s != [] {
      WithSortKey(s[1..], sortOrder, k);
    }
  }

  /** Selecting the ranked tokens, then those of one key, keeps the input order. */
  lemma {:induction false} RankedWithKey(s: seq<string>, sortOrder: seq<string>, k: int)
    ensures WithKey(Ranked(s, sortOrder), Rank(sortOrder), k) == if k == -1 then [] else WithKey(s, Rank(sortOrder), k)
    ensures WithKey(Unranked(s, sortOrder), Rank(sortOrder), k) == if k == -1 then WithKey(s, Rank(sortOrder), k) else []
  {
    if s != [] {
      RankedWithKey(s[1..], sortOrder, k);
      var rank := Rank(sortOrder);
      assert rank(s[0]) == IndexOf(sortOrder, s[0]);
      assert WithKey(s, rank, k) == (if rank(s[0]) == k then [s[0]] else []) + WithKey(s[1..], rank, k);
      if IndexOf(sortOrder, s[0]) != -1 {
        assert Ranked(s, sortOrder) == [s[0]] + Ranked(s[1..], sortOrder);
        assert Unranked(s, sortOrder) == Unranked(s[1..], sortOrder);
        WithKeyCons(s[0], Ranked(s[1..], sortOrder), rank, k);
      } else {
        assert Ranked(s, sortOrder) == Ranked(s[1..], sortOrder);
        assert Unranked(s, sortOrder) == [s[0]] + Unranked(s[1..], sortOrder);
        WithKeyCons(s[0], Unranked(s[1..], sortOrder), rank, k);
      }
    }
  }

  /**
   * Stability: for every rank, and for the unranked tokens, the tokens that
   * share it come out in their input order.
   */
  lemma SortClassArrayStable(classArray: seq<string>, sortOrder: seq<string>, k: int)
    ensures WithKey(SortClassArray(classArray, sortOrder), SortKey(sortOrder), k)
         == WithKey(classArray, SortKey(sortOrder), k)
  {
    var rank := Rank(sortOrder);
    var ranked := Ranked(classArray, sortOrder);
    var a := StableSortBy(ranked, rank);
    var b := Unranked(classArray, sortOrder);
    WithKeyAppend(a, b, SortKey(sortOrder), k);
    WithSortKey(a, sortOrder, k);
    WithSortKey(b, sortOrder, k);
    WithSortKey(classArray, sortOrder, k);
    StableSortByWithKey(ranked, rank, k);
    StableSortByWithKey(ranked, rank, -1);
    RankedWithKey(classArray, sortOrder, k);
    RankedWithKey(classArray, sortOrder, -1);
  }

  /**
   * `sortClassArray` is one stable sort of the whole token list by
   * `SortKey`: an independent definition of the same result.
   */
  lemma SortClassArrayIsStableSort(classArray: seq<string>, sortOrder: seq<string>)
    ensures SortClassArray(classArray, sortOrder) == StableSortBy(classArray, SortKey(sortOrder))
  {
    SortClassArrayOrdered(classArray, sortOrder);
    forall k
      ensures WithKey(SortClassArray(classArray, sortOrder), SortKey(sortOrder), k)
           == WithKey(classArray, SortKey(sortOrder), k)
    {
      SortClassArrayStable(classArray, sortOrder, k);
    }
    StableSortByUnique(classArray, SortClassArray(classArray, sortOrder), SortKey(sortOrder));
  }

  /** Sorting an already sorted token list again changes nothing. */
  lemma SortClassArrayIdempotent(classArray: seq<string>, sortOrder: seq<string>)
    ensures SortClassArray(SortClassArray(classArray, sortOrder), sortOrder)
         == SortClassArray(classArray, sortOrder)
  {
    var r := SortClassArray(classArray, sortOrder);
    SortClassArrayIsStableSort(classArray, sortOrder);
    SortClassArrayIsStableSort(r, sortOrder);
    StableSortByOrdered(classArray, SortKey(sortOrder));
    StableSortBySorted(r, SortKey(sortOrder));
  }

  /** With an empty order every token is unranked and no token moves. */
  lemma SortClassArrayEmptyOrder(classArray: seq<string>)
    ensures SortClassArray(classArray, []) == classArray
  {
    SortClassArrayIsStableSort(classArray, []);
    var key := SortKey([]);
    forall i | 0 <= i < |classArray|
      ensures key(classArray[i]) == 0
    {
      assert IndexOf([], classArray[i]) == -1;
    }
    StableSortBySorted(classArray, key);
  }

  // ---- sortClassString ----

  /** The token list of lines 8-12: the `\s+` pieces, first occurrences only when asked. */
  function ClassTokens(classString: string, shouldRemoveDuplicates: bool): seq<string> {
    var classArray := SplitWhitespace(classString);
    if shouldRemoveDuplicates then RemoveDuplicates(classArray) else classArray
  }

  /** `sortClassString`: the sorted token list joined with single spaces. */
  function SortClassString(classString: string, sortOrder: seq<string>, shouldRemoveDuplicates: bool): string {
    Join(SortClassArray(ClassTokens(classString, shouldRemoveDuplicates), sortOrder), " ")
  }

  /** `s` neither starts nor ends with whitespace. */
  predicate Trimmed(s: string) {
    s == "" || (!IsWhitespace(s[0]) && !IsWhitespace(s[|s| - 1]))
  }

  /** The tokens hold no whitespace, and none is empty unless the input is. */
  lemma ClassTokensShape(classString: string, shouldRemoveDuplicates: bool)
    requires Trimmed(classString)
    ensures var t := ClassTokens(classString, shouldRemoveDuplicates);
      && |t| >= 1
      && (forall i :: 0 <= i < |t| ==> NoWhitespace(t[i]))
      && (classString == "" ==> t == [""])
      && (classString != "" ==> forall i :: 0 <= i < |t| ==> t[i] != "")
  {
    var pieces := SplitWhitespace(classString);
    SplitWhitespacePieces(classString);
    SplitWhitespaceEnds(classString);
    assert forall i :: 0 <= i < |pieces| && classString != "" ==> pieces[i] != "";
    if shouldRemoveDuplicates {
      RemoveDuplicatesIsDedupe(pieces);
      DedupeProperties(pieces);
      var t := Dedupe(pieces);
      assert pieces[0] in t;
      forall i | 0 <= i < |t|
        ensures NoWhitespace(t[i]) && (classString != "" ==> t[i] != "")
      {
        var j :| 0 <= j < |pieces| && pieces[j] == t[i];
      }
      if classString == "" {
        assert pieces == [""];
        DedupeIdentity(pieces);
      }
    }
  }

  /** A rearrangement keeps every property its elements have one by one. */
  lemma SortedTokensShape(t: seq<string>, sortOrder: seq<string>, classString: string)
    requires |t| >= 1
    requires forall i :: 0 <= i < |t| ==> NoWhitespace(t[i]) && (classString != "" ==> t[i] != "")
    requires classString == "" ==> t == [""]
    ensures var r := SortClassArray(t, sortOrder);
      && |r| >= 1
      && (forall i :: 0 <= i < |r| ==> NoWhitespace(r[i]))
      && (forall i :: 0 < i < |r| - 1 ==> r[i] != "")
  {
    var r := SortClassArray(t, sortOrder);
    SortClassArrayPermutation(t, sortOrder);
    assert |r| == |multiset(r)| == |multiset(t)| == |t|;
    forall i | 0 <= i < |r|
      ensures NoWhitespace(r[i]) && (classString != "" ==> r[i] != "")
    {
      assert r[i] in multiset(t);
    }
  }

  /**
   * For an input without leading or trailing whitespace, splitting the
   * output again gives back exactly the sorted token list: the output is
   * those tokens separated by single spaces.
   */
  lemma SortClassStringTokens(classString: string, sortOrder: seq<string>, shouldRemoveDuplicates: bool)
    requires Trimmed(classString)
    ensures SplitWhitespace(SortClassString(classString, sortOrder, shouldRemoveDuplicates))
         == SortClassArray(ClassTokens(classString, shouldRemoveDuplicates), sortOrder)
  {
    var t := ClassTokens(classString, shouldRemoveDuplicates);
    ClassTokensShape(classString, shouldRemoveDuplicates);
    SortedTokensShape(t, sortOrder, classString);
    SplitJoin(SortClassArray(t, sortOrder));
  }

  /** With removal on, every distinct token is kept once, at its first occurrence. */
  lemma ClassTokensDeduplicated(classString: string)
    ensures ClassTokens(classString, true) == Dedupe(SplitWhitespace(classString))
    ensures NoDuplicates(ClassTokens(classString, true))
  {
    RemoveDuplicatesIsDedupe(SplitWhitespace(classString));
    DedupeProperties(SplitWhitespace(classString));
  }

  /**
   * Sorting the output of `sortClassString` again, with the same order and
   * flag, changes nothing (for input without leading or trailing whitespace).
   */
  lemma SortClassStringIdempotent(classString: string, sortOrder: seq<string>, shouldRemoveDuplicates: bool)
    requires Trimmed(classString)
    ensures var once := SortClassString(classString, sortOrder, shouldRemoveDuplicates);
      SortClassString(once, sortOrder, shouldRemoveDuplicates) == once
  {
    var t := ClassTokens(classString, shouldRemoveDuplicates);
    var r := SortClassArray(t, sortOrder);
    var once := Join(r, " ");
    SortClassStringTokens(classString, sortOrder, shouldRemoveDuplicates);
    assert SplitWhitespace(once) == r;
    if shouldRemoveDuplicates {
      ClassTokensDeduplicated(classString);
      SortClassArrayPermutation(t, sortOrder);
      NoDuplicatesPermutation(t, r);
      RemoveDuplicatesIsDedupe(r);
      DedupeIdentity(r);
    }
    assert ClassTokens(once, shouldRemoveDuplicates) == r;
    SortClassArrayIdempotent(t, sortOrder);
  }

  /**
   * Without duplicate removal, a single-spaced input keeps its length: the
   * output is a rearrangement of the same words with the same separators.
   */
  lemma SortClassStringLength(classString: string, sortOrder: seq<string>)
    requires SingleSpaced(classString)
    ensures |SortClassString(classString, sortOrder, false)| == |classString|
  {
    var t := SplitWhitespace(classString);
    SortClassArrayPermutation(t, sortOrder);
    JoinLengthPermutation(SortClassArray(t, sortOrder), t);
    JoinSplit(classString);
  }

  /** With an empty order, a single-spaced input without duplicates to drop comes back unchanged. */
  lemma SortClassStringEmptyOrder(classString: string)
    requires SingleSpaced(classString)
    ensures SortClassString(classString, [], false) == classString
  {
    SortClassArrayEmptyOrder(SplitWhitespace(classString));
    JoinSplit(classString);
  }

  /**
   * The example of the extension's documentation: `"text-white bg-black flex"`
   * with the order `["flex", "bg-black", "text-white"]` becomes
   * `"flex bg-black text-white"` (the two strings are the joins below, see
   * ExampleStrings).
   */
  lemma SortClassStringExample()
    ensures SortClassString(Join(["text-white", "bg-black", "flex"], " "), ["flex", "bg-black", "text-white"], true)
         == Join(["flex", "bg-black", "text-white"], " ")
  {
    SortReversedThree("flex", "bg-black", "text-white", true);
  }

  lemma ExampleStrings()
    ensures Join(["text-white", "bg-black", "flex"], " ") == "text-white bg-black flex"
    ensures Join(["flex", "bg-black", "text-white"], " ") == "flex bg-black text-white"
  {
    JoinThree("text-white", "bg-black", "flex", " ");
    JoinThree("flex", "bg-black", "text-white", " ");
  }

  /** Three distinct classes written in reverse rank order are rewritten in rank order. */
  lemma SortReversedThree(x: string, y: string, z: string, shouldRemoveDuplicates: bool)
    requires x != y && y != z && x != z
    requires x != "" && y != "" && z != ""
    requires NoWhitespace(x) && NoWhitespace(y) && NoWhitespace(z)
    ensures SortClassString(Join([z, y, x], " "), [x, y, z], shouldRemoveDuplicates) == Join([x, y, z], " ")
  {
    var parts := [z, y, x];
    SplitJoin(parts);
    if shouldRemoveDuplicates {
      RemoveDuplicatesIsDedupe(parts);
      DedupeIdentity(parts);
    }
    ReversedThree(x, y, z);
  }

  /** Three distinct classes listed in reverse rank order come out in rank order. */
  lemma ReversedThree(x: string, y: string, z: string)
    requires x != y && y != z && x != z
    ensures SortClassArray([z, y, x], [x, y, z]) == [x, y, z]
  {
    var order := [x, y, z];
    var rank := Rank(order);
    assert IndexOf(order, x) == 0;
    assert IndexOf(order, y) == 1;
    assert IndexOf(order, z) == 2;
    assert Ranked([z, y, x], order) == [z, y, x] by {
      assert Ranked([x], order) == [x];
      assert Ranked([y, x], order) == [y, x];
    }
    assert Unranked([z, y, x], order) == [] by {
      assert Unranked([x], order) == [];
      assert Unranked([y, x], order) == [];
    }
    assert rank(x) == 0 && rank(y) == 1 && rank(z) == 2;
    StableSortByReversedThree(x, y, z, rank);
  }

  // ---- the sortTailwindClasses command ----

  /**
   * One result of `classWrapperRegex.exec(editorText)`: where the match
   * starts, the matched text `classWrapper[0]`, and the capture groups
   * `classWrapper[1..]`, with `None` for a group that did not take part.
   */
  datatype ClassWrapperMatch = ClassWrapperMatch(index: nat, wrapper: string, groups: seq<Option<string>>)

  /** JavaScript truthiness of a capture: a string that is not empty. */
  predicate Truthy(group: Option<string>) {
    group.Some? && group.value != ""
  }

  /**
   * `classWrapper.findIndex((match, idx) => idx !== 0 && match)`, counted
   * from the first capture group: the first truthy group, if any.
   */
  function ValueGroupIndex(groups: seq<Option<string>>): (r: Option<nat>)
    ensures r.None? <==> forall i :: 0 <= i < |groups| ==> !Truthy(groups[i])
    ensures r.Some? ==> r.value < |groups| && Truthy(groups[r.value])
    ensures r.Some? ==> forall i :: 0 <= i < r.value ==> !Truthy(groups[i])
  {
    if groups == [] then None
    else if Truthy(groups[0]) then Some(0)
    else
      match ValueGroupIndex(groups[1..])
      case None => None
      case Some(k) => Some(k + 1)
  }

  /**
   * `classWrapper[valueMatchIndex]`. With no truthy group the index is -1,
   * the value is `undefined` and `valueMatch.length` throws: `None`.
   */
  function ValueMatch(m: ClassWrapperMatch): Option<string> {
    match ValueGroupIndex(m.groups)
    case None => None
    case Some(k) => m.groups[k]
  }

  /** A half-open range of document offsets. */
  datatype Span = Span(start: int, end: int)

  /** Lines 79-80: `start` is the last place the value occurs in the wrapper, shifted by the match index. */
  function ValueSpan(m: ClassWrapperMatch): Option<Span> {
    match ValueMatch(m)
    case None => None
    case Some(value) =>
      var start := m.index + LastIndexOf(m.wrapper, value);
      Some(Span(start, start + |value|))
  }

  /**
   * When the wrapper is the text at the match index and the value occurs in
   * the wrapper, the span lies inside the wrapper and covers exactly the
   * value, at its last occurrence there.
   */
  lemma ValueSpanSlice(text: string, m: ClassWrapperMatch, j: nat)
    requires OccursAt(text, m.wrapper, m.index)
    requires ValueMatch(m).Some? && OccursAt(m.wrapper, ValueMatch(m).value, j)
    ensures ValueSpan(m).Some?
    ensures var sp := ValueSpan(m).value;
      && m.index + j <= sp.start <= sp.end <= m.index + |m.wrapper|
      && text[sp.start..sp.end] == ValueMatch(m).value
  {
    var value := ValueMatch(m).value;
    var k := LastIndexOf(m.wrapper, value);
    LastIndexOfProperties(m.wrapper, value);
    assert k >= j;
    var start := m.index + k;
    var w := text[m.index..m.index + |m.wrapper|];
    assert w == m.wrapper;
    var fromText, fromWrapper := text[start..start + |value|], w[k..k + |value|];
    forall i | 0 <= i < |value|
      ensures fromText[i] == fromWrapper[i]
    {
    }
    assert fromText == fromWrapper;
  }

  /**
   * A value that does not occur in the wrapper (a group captured inside a
   * lookaround) gets a span that starts one before the match.
   */
  lemma ValueSpanNotInWrapper(m: ClassWrapperMatch)
    requires ValueMatch(m).Some? && forall j :: !OccursAt(m.wrapper, ValueMatch(m).value, j)
    ensures ValueSpan(m).Some? && ValueSpan(m).value.start == m.index - 1
  {
    LastIndexOfProperties(m.wrapper, ValueMatch(m).value);
  }

  /**
   * A match `before + value + "\""` whose only group is a value without
   * double quotes: the span covers the value, right after `before`.
   */
  lemma QuotedValueSpan(index: nat, before: string, value: string)
    requires value != "" && '"' !in value
    ensures var m := ClassWrapperMatch(index, before + value + "\"", [Some(value)]);
      var start := index + |before|;
      ValueMatch(m) == Some(value) && ValueSpan(m) == Some(Span(start, start + |value|))
  {
    var w := before + value + "\"";
    var p := |before|;
    assert w[p..p + |value|] == value;
    assert OccursAt(w, value, p);
    LastIndexOfProperties(w, value);
    forall j | j > p
      ensures !OccursAt(w, value, j)
    {
      if j + |value| <= |w| {
        assert w[j..j + |value|][|value| - 1] == w[|w| - 1] == '"';
      }
    }
  }

  /** The first value of the regular-expression test: `class="h-screen"` yields `h-screen`. */
  lemma ValueSpanClassExample(index: nat)
    ensures var m := ClassWrapperMatch(index, "class=\"" + "h-screen" + "\"", [Some("h-screen")]);
      ValueMatch(m) == Some("h-screen") && ValueSpan(m) == Some(Span(index + 7, index + 15))
  {
    QuotedValueSpan(index, "class=\"", "h-screen");
  }

  /** The second value of the test, captured from a `className` attribute. */
  lemma ValueSpanClassNameExample(index: nat)
    ensures var m := ClassWrapperMatch(index, "className=\"" + "w-64 h-full bg-blue-400 relative" + "\"",
                                       [Some("w-64 h-full bg-blue-400 relative")]);
      ValueMatch(m) == Some("w-64 h-full bg-blue-400 relative")
      && ValueSpan(m) == Some(Span(index + 11, index + 43))
  {
    QuotedValueSpan(index, "className=\"", "w-64 h-full bg-blue-400 relative");
  }

  /** `tailwindCSS.headwind.defaultSortOrder` as configured: only an array is used. */
  datatype SortOrderSetting = OrderArray(items: seq<string>) | NotAnArray

  /** `tailwindCSS.headwind.removeDuplicates` as configured: only a boolean is used. */
  datatype FlagSetting = FlagBoolean(flag: bool) | NotABoolean

  /** Line 87: `Array.isArray(sortOrder) ? sortOrder : []`. */
  function EffectiveSortOrder(setting: SortOrderSetting): seq<string> {
    match setting
    case OrderArray(items) => items
    case NotAnArray => []
  }

  /** Line 54: the flag when it is a boolean, otherwise `true`. */
  function EffectiveRemoveDuplicates(setting: FlagSetting): bool {
    match setting
    case FlagBoolean(flag) => flag
    case NotABoolean => true
  }

  /** The edit `doc.applyEdits` receives for one match: the value span and its sorted text. */
  datatype Edit = Edit(span: Span, newText: string)

  /** The edit for `m`, or `None` where the command throws. */
  function EditFor(m: ClassWrapperMatch, sortOrder: seq<string>, shouldRemoveDuplicates: bool): Option<Edit> {
    match ValueMatch(m)
    case None => None
    case Some(value) => Some(Edit(ValueSpan(m).value, SortClassString(value, sortOrder, shouldRemoveDuplicates)))
  }

  /** The edit for a match whose first truthy group is group `k`. */
  lemma EditForValue(m: ClassWrapperMatch, sortOrder: seq<string>, shouldRemoveDuplicates: bool, k: nat,
                     start: int, end: int, newText: string)
    requires ValueGroupIndex(m.groups) == Some(k)
    requires start == m.index + LastIndexOf(m.wrapper, m.groups[k].value) && end == start + |m.groups[k].value|
    requires newText == SortClassString(m.groups[k].value, sortOrder, shouldRemoveDuplicates)
    ensures EditFor(m, sortOrder, shouldRemoveDuplicates) == Some(Edit(Span(start, end), newText))
  {
    var value := m.groups[k].value;
    assert ValueMatch(m) == Some(value);
    assert ValueSpan(m) == Some(Span(start, end));
    assert EditFor(m, sortOrder, shouldRemoveDuplicates)
        == Some(Edit(ValueSpan(m).value, SortClassString(value, sortOrder, shouldRemoveDuplicates)));
  }

  /** Each of `edits` is the edit for the match at the same position. */
  predicate EditsFor(matches: seq<ClassWrapperMatch>, edits: seq<Edit>, sortOrder: seq<string>, shouldRemoveDuplicates: bool) {
    |edits| <= |matches| && forall i :: 0 <= i < |edits| ==> EditFor(matches[i], sortOrder, shouldRemoveDuplicates) == Some(edits[i])
  }

  lemma EditsForSnoc(matches: seq<ClassWrapperMatch>, edits: seq<Edit>, sortOrder: seq<string>, shouldRemoveDuplicates: bool, edit: Edit)
    requires EditsFor(matches, edits, sortOrder, shouldRemoveDuplicates) && |edits| < |matches|
    requires EditFor(matches[|edits|], sortOrder, shouldRemoveDuplicates) == Some(edit)
    ensures EditsFor(matches, edits + [edit], sortOrder, shouldRemoveDuplicates)
  {
    var next := edits + [edit];
    forall k | 0 <= k < |next|
      ensures EditFor(matches[k], sortOrder, shouldRemoveDuplicates) == Some(next[k])
    {
      if k < |edits| {
        assert next[k] == edits[k];
      } else {
        assert next[k] == edit;
      }
    }
  }

  /**
   * The command body: one edit per match, in match order. The first match
   * without a truthy group throws; the edits before it have been applied
   * and no later match is looked at.
   */
  method SortTailwindClasses(matches: seq<ClassWrapperMatch>, sortOrder: SortOrderSetting, removeDuplicates: FlagSetting)
    returns (edits: seq<Edit>, threw: bool)
    ensures threw <==> exists i :: 0 <= i < |matches| && ValueMatch(matches[i]).None?
    ensures |edits| <= |matches|
    ensures threw ==> |edits| < |matches| && ValueMatch(matches[|edits|]).None?
    ensures !threw ==> |edits| == |matches|
    ensures EditsFor(matches, edits, EffectiveSortOrder(sortOrder), EffectiveRemoveDuplicates(removeDuplicates))
  {
    var order := EffectiveSortOrder(sortOrder);
    var dedupe := EffectiveRemoveDuplicates(removeDuplicates);
    edits := [];
    var i := 0;
    while i < |matches|
      invariant 0 <= i <= |matches| && |edits| == i
      invariant forall k :: 0 <= k < i ==> ValueMatch(matches[k]).Some?
      invariant EditsFor(matches, edits, order, dedupe)
    {
      var classWrapper := matches[i];
      var valueMatchIndex := ValueGroupIndex(classWrapper.groups);
      if valueMatchIndex.None? {
        return edits, true;
      }
      var valueMatch := classWrapper.groups[valueMatchIndex.value].value;
      var startPosition := classWrapper.index + LastIndexOf(classWrapper.wrapper, valueMatch);
      var endPosition := startPosition + |valueMatch|;
      var newText := SortClassString(valueMatch, order, dedupe);
      var edit := Edit(Span(startPosition, endPosition), newText);
      EditForValue(classWrapper, order, dedupe, valueMatchIndex.value, startPosition, endPosition, newText);
      EditsForSnoc(matches, edits, order, dedupe, edit);
      edits := edits + [edit];
      i := i + 1;
    }
    threw := false;
  }

  /**
   * An edit made without duplicate removal on a single-spaced value replaces
   * its span by text of the same length, so the offsets of the later
   * matches, taken from the text before any edit, stay valid.
   */
  lemma EditKeepsLength(m: ClassWrapperMatch, sortOrder: seq<string>)
    requires ValueMatch(m).Some? && SingleSpaced(ValueMatch(m).value)
    ensures EditFor(m, sortOrder, false).Some?
    ensures var e := EditFor(m, sortOrder, false).value; |e.newText| == e.span.end - e.span.start
  {
    SortClassStringLength(ValueMatch(m).value, sortOrder);
  }
}
