/**
 * The JavaScript string built-ins the extension relies on: `split(/\s+/)`,
 * `Array.prototype.join`, `lastIndexOf`, `startsWith` and
 * `Number.prototype.toString(16)` on byte values.
 */
module JsString {

  import opened JsArray

  /** The characters matched by the regular-expression class `\s` (ECMAScript WhiteSpace and LineTerminator). */
  predicate IsWhitespace(c: char) {
    || c == ' ' || c == '\t' || c == '\n' || c == '\r' || c == '\U{B}' || c == '\U{C}'
    || c == '\U{A0}' || c == '\U{1680}' || ('\U{2000}' <= c <= '\U{200A}')
    || c == '\U{2028}' || c == '\U{2029}' || c == '\U{202F}' || c == '\U{205F}'
    || c == '\U{3000}' || c == '\U{FEFF}'
  }

  predicate NoWhitespace(s: string) {
    forall i :: 0 <= i < |s| ==> !IsWhitespace(s[i])
  }

  /** The first index at or after `i` that holds whitespace, or `|s|`: where the piece starting at `i` ends. */
  function TokenEnd(s: string, i: nat): (j: nat)
    requires i <= |s|
    ensures i <= j <= |s|
    ensures forall k :: i <= k < j ==> !IsWhitespace(s[k])
    ensures j < |s| ==> IsWhitespace(s[j])
    decreases |s| - i
  {
    if i == |s| || IsWhitespace(s[i]) then i else TokenEnd(s, i + 1)
  }

  /** The first index at or after `i` that does not hold whitespace, or `|s|`: where a whitespace run ends. */
  function RunEnd(s: string, i: nat): (j: nat)
    requires i <= |s|
    ensures i <= j <= |s|
    ensures forall k :: i <= k < j ==> IsWhitespace(s[k])
    ensures j < |s| ==> !IsWhitespace(s[j])
    decreases |s| - i
  {
    if i == |s| || !IsWhitespace(s[i]) then i else RunEnd(s, i + 1)
  }

  /** The two properties above pin `TokenEnd` down. */
  lemma TokenEndAt(s: string, i: nat, e: nat)
    requires i <= e <= |s|
    requires forall k :: i <= k < e ==> !IsWhitespace(s[k])
    requires e < |s| ==> IsWhitespace(s[e])
    ensures TokenEnd(s, i) == e
  {
  }

  /** The two properties above pin `RunEnd` down. */
  lemma RunEndAt(s: string, i: nat, e: nat)
    requires i <= e <= |s|
    requires forall k :: i <= k < e ==> IsWhitespace(s[k])
    requires e < |s| ==> !IsWhitespace(s[e])
    ensures RunEnd(s, i) == e
  {
  }

  /** The pieces of `s[i..]` between maximal runs of whitespace. */
  function SplitFrom(s: string, i: nat): (r: seq<string>)
    requires i <= |s|
    ensures |r| >= 1
    decreases |s| - i
  {
    var j := TokenEnd(s, i);
    if j == |s| then [s[i..]] else [s[i..j]] + SplitFrom(s, RunEnd(s, j))
  }

  /**
   * `s.split(/\s+/)`: the pieces of `s` between maximal runs of whitespace.
   * Leading or trailing whitespace yields an empty first or last piece, and
   * the empty string yields one empty piece.
   */
  function SplitWhitespace(s: string): (r: seq<string>)
    ensures |r| >= 1
  {
    SplitFrom(s, 0)
  }

  lemma {:induction false} SplitFromPieces(s: string, i: nat)
    requires i <= |s|
    ensures i == |s| ==> SplitFrom(s, i) == [""]
    ensures forall k :: 0 <= k < |SplitFrom(s, i)| ==> NoWhitespace(SplitFrom(s, i)[k])
    decreases |s| - i
  {
    var j := TokenEnd(s, i);
    assert forall k :: 0 <= k < j - i ==> s[i..j][k] == s[i + k];
    if j == |s| {
      assert s[i..] == s[i..j];
    } else {
      SplitFromPieces(s, RunEnd(s, j));
    }
  }

  /** The pieces contain no whitespace; the empty string gives one empty piece. */
  lemma SplitWhitespacePieces(s: string)
    ensures s == "" ==> SplitWhitespace(s) == [""]
    ensures forall i :: 0 <= i < |SplitWhitespace(s)| ==> NoWhitespace(SplitWhitespace(s)[i])
  {
    SplitFromPieces(s, 0);
  }

  /** The first piece runs from `i` to the first whitespace. */
  lemma SplitFromFirst(s: string, i: nat)
    requires i <= |s|
    ensures |SplitFrom(s, i)[0]| == TokenEnd(s, i) - i
  {
  }

  /** The pieces between the first and the last are never empty. */
  lemma {:induction false} SplitFromInner(s: string, i: nat)
    requires i <= |s|
    ensures forall k :: 0 < k < |SplitFrom(s, i)| - 1 ==> |SplitFrom(s, i)[k]| > 0
    decreases |s| - i
  {
    var j := TokenEnd(s, i);
    if j < |s| {
      var next := RunEnd(s, j);
      SplitFromInner(s, next);
      SplitFromFirst(s, next);
      if next == |s| {
        SplitFromPieces(s, next);
      }
    }
  }

  /** The last piece is empty exactly when it starts at the end or `s` ends with whitespace. */
  lemma {:induction false} SplitFromLast(s: string, i: nat)
    requires i <= |s|
    ensures |SplitFrom(s, i)[|SplitFrom(s, i)| - 1]| == 0 <==> i == |s| || IsWhitespace(s[|s| - 1])
    decreases |s| - i
  {
    var j := TokenEnd(s, i);
    if j < |s| {
      var next := RunEnd(s, j);
      SplitFromLast(s, next);
      assert SplitFrom(s, i) == [s[i..j]] + SplitFrom(s, next);
      assert next == |s| ==> IsWhitespace(s[|s| - 1]);
    } else {
      assert SplitFrom(s, i) == [s[i..]];
      assert i < |s| ==> !IsWhitespace(s[|s| - 1]);
    }
  }

  /**
   * Only the first and the last piece can be empty, and they are empty
   * exactly when `s` starts or ends with whitespace (or is empty).
   */
  lemma SplitWhitespaceEnds(s: string)
    ensures forall i :: 0 < i < |SplitWhitespace(s)| - 1 ==> SplitWhitespace(s)[i] != ""
    ensures SplitWhitespace(s)[0] == "" <==> s == "" || IsWhitespace(s[0])
    ensures SplitWhitespace(s)[|SplitWhitespace(s)| - 1] == "" <==> s == "" || IsWhitespace(s[|s| - 1])
  {
    SplitFromInner(s, 0);
    SplitFromFirst(s, 0);
    SplitFromLast(s, 0);
  }

  /** `parts.join(sep)`. */
  function Join(parts: seq<string>, sep: string): string {
    if |parts| == 0 then ""
    else if |parts| == 1 then parts[0]
    else parts[0] + sep + Join(parts[1..], sep)
  }

  /** The sum of the lengths of `parts`. */
  function TotalLength(parts: seq<string>): nat {
    if parts == [] then 0 else |parts[0]| + TotalLength(parts[1..])
  }

  /** Joining with one space adds exactly one character between neighbouring parts. */
  lemma {:induction false} JoinLength(parts: seq<string>)
    requires parts != []
    ensures |Join(parts, " ")| == TotalLength(parts) + |parts| - 1
  {
    if |parts| > 1 {
      JoinLength(parts[1..]);
    }
  }

  lemma {:induction false} TotalLengthRemove(parts: seq<string>, j: nat)
    requires j < |parts|
    ensures TotalLength(parts) == |parts[j]| + TotalLength(parts[..j] + parts[j + 1..])
  {
    if j > 0 {
      TotalLengthRemove(parts[1..], j - 1);
      assert parts[..j] + parts[j + 1..] == [parts[0]] + (parts[1..][..j - 1] + parts[1..][j..]);
    } else {
      assert parts[..j] + parts[j + 1..] == parts[1..];
    }
  }

  /** Reordering the parts does not change their total length. */
  lemma {:induction false} TotalLengthPermutation(a: seq<string>, b: seq<string>)
    requires multiset(a) == multiset(b)
    ensures TotalLength(a) == TotalLength(b)
    decreases |a|
  {
    if a != [] {
      assert a[0] in multiset(b);
      var j :| 0 <= j < |b| && b[j] == a[0];
      var b' := b[..j] + b[j + 1..];
      MultisetRemoveAt(a, b, j);
      TotalLengthPermutation(a[1..], b');
      TotalLengthRemove(b, j);
    } else {
      assert |b| == |multiset(b)| == 0;
    }
  }

  /** Permuting the parts leaves the length of the space-joined string unchanged. */
  lemma JoinLengthPermutation(a: seq<string>, b: seq<string>)
    requires multiset(a) == multiset(b)
    ensures |Join(a, " ")| == |Join(b, " ")|
  {
    assert |a| == |multiset(a)| == |multiset(b)| == |b|;
    if a != [] {
      JoinLength(a);
      JoinLength(b);
      TotalLengthPermutation(a, b);
    }
  }

  lemma {:induction false} JoinStartsWithFirst(parts: seq<string>, sep: string)
    requires parts != []
    ensures |Join(parts, sep)| >= |parts[0]| && Join(parts, sep)[..|parts[0]|] == parts[0]
  {
  }

  /**
   * Splitting undoes joining with one space, for parts without whitespace
   * whose inner parts are not empty.
   */
  lemma SplitJoin(parts: seq<string>)
    requires |parts| >= 1
    requires forall i :: 0 <= i < |parts| ==> NoWhitespace(parts[i])
    requires forall i :: 0 < i < |parts| - 1 ==> parts[i] != ""
    ensures SplitWhitespace(Join(parts, " ")) == parts
  {
    var s := Join(parts, " ");
    assert s[0..] == s;
    assert Joinable(parts);
    SplitFromJoin(s, 0, parts);
  }

  /** Parts that `SplitJoin` gives back: at least one, none holding whitespace, inner ones not empty. */
  predicate Joinable(parts: seq<string>) {
    && |parts| >= 1
    && (forall k :: 0 <= k < |parts| ==> NoWhitespace(parts[k]))
    && (forall k :: 0 < k < |parts| - 1 ==> |parts[k]| > 0)
  }

  /** The same, for a join that makes up the tail `s[i..]` of a longer string. */
  lemma {:induction false} SplitFromJoin(s: string, i: nat, parts: seq<string>)
    requires i <= |s| && s[i..] == Join(parts, " ") && Joinable(parts)
    ensures SplitFrom(s, i) == parts
    decreases |parts|
  {
    var e := JoinStep(s, i, parts);
    if |parts| > 1 {
      SplitFromJoin(s, e + 1, parts[1..]);
      SplitFromCons(s, i, e, e + 1, parts);
    } else {
      assert SplitFrom(s, i) == [s[i..e]];
    }
  }

  /** One step of `SplitFromJoin`: where the first piece ends, and what the rest of the string holds. */
  lemma JoinStep(s: string, i: nat, parts: seq<string>) returns (e: nat)
    requires i <= |s| && s[i..] == Join(parts, " ") && Joinable(parts)
    ensures e == i + |parts[0]| <= |s| && TokenEnd(s, i) == e && s[i..e] == parts[0]
    ensures |parts| == 1 ==> e == |s|
    ensures |parts| > 1 ==> && e < |s| && RunEnd(s, e) == e + 1
                            && s[e + 1..] == Join(parts[1..], " ") && Joinable(parts[1..])
  {
    e := JoinFirstPiece(s, i, parts);
    if |parts| > 1 {
      var rest := parts[1..];
      assert forall k :: 0 <= k < |rest| ==> rest[k] == parts[k + 1];
      JoinRunEnd(s, e, rest);
    }
  }

  /** A piece ending at a whitespace run is followed by the pieces after the run. */
  lemma SplitFromCons(s: string, i: nat, e: nat, next: nat, parts: seq<string>)
    requires i <= e < |s| && TokenEnd(s, i) == e && RunEnd(s, e) == next
    requires |parts| >= 1 && s[i..e] == parts[0] && SplitFrom(s, next) == parts[1..]
    ensures SplitFrom(s, i) == parts
  {
    assert SplitFrom(s, i) == [parts[0]] + parts[1..];
  }

  /** In `s[i..] == Join(parts, " ")`, the first piece is `parts[0]`, followed by a space or the end. */
  lemma JoinFirstPiece(s: string, i: nat, parts: seq<string>) returns (e: nat)
    requires i <= |s| && s[i..] == Join(parts, " ")
    requires |parts| >= 1 && NoWhitespace(parts[0])
    ensures e == i + |parts[0]| <= |s| && TokenEnd(s, i) == e && s[i..e] == parts[0]
    ensures |parts| == 1 ==> e == |s|
    ensures |parts| > 1 ==> e < |s| && s[e] == ' ' && s[e + 1..] == Join(parts[1..], " ")
  {
    var p := parts[0];
    e := i + |p|;
    JoinStartsWithFirst(parts, " ");
    assert s[i..][..|p|] == p;
    assert forall k :: i <= k < e ==> s[k] == p[k - i];
    if |parts| == 1 {
      assert s[i..] == p;
    } else {
      assert s[i..] == p + " " + Join(parts[1..], " ");
      assert s[e] == s[i..][|p|];
      assert s[e + 1..] == s[i..][|p| + 1..];
    }
    TokenEndAt(s, i, e);
    assert s[i..e] == s[i..][..|p|];
  }

  /** After the space that ends a piece, the run of whitespace is that one space. */
  lemma JoinRunEnd(s: string, e: nat, rest: seq<string>)
    requires e < |s| && s[e] == ' ' && s[e + 1..] == Join(rest, " ")
    requires |rest| >= 1 && NoWhitespace(rest[0])
    requires |rest[0]| == 0 ==> |rest| == 1
    ensures RunEnd(s, e) == e + 1
  {
    if e + 1 < |s| {
      JoinStartsWithFirst(rest, " ");
      assert s[e + 1] == s[e + 1..][0];
      if |rest[0]| > 0 {
        assert s[e + 1..][0] == rest[0][0];
      }
    }
    RunEndAt(s, e, e + 1);
  }

  lemma JoinThree(a: string, b: string, c: string, sep: string)
    ensures Join([a, b, c], sep) == a + sep + b + sep + c
  {
    assert [a, b, c][1..] == [b, c] && [b, c][1..] == [c];
    assert Join([b, c], sep) == b + sep + c;
  }

  /** `s` has no leading or trailing whitespace and its words are separated by single spaces. */
  predicate SingleSpaced(s: string) {
    forall i :: 0 <= i < |s| && IsWhitespace(s[i]) ==> s[i] == ' ' && 0 < i < |s| - 1 && !IsWhitespace(s[i + 1])
  }

  /** Joining the pieces of a single-spaced string with one space gives the string back. */
  lemma JoinSplit(s: string)
    requires SingleSpaced(s)
    ensures Join(SplitWhitespace(s), " ") == s
  {
    JoinSplitFrom(s, 0);
    assert s[0..] == s;
  }

  /** The same for the pieces of any tail `s[i..]`. */
  lemma {:induction false} JoinSplitFrom(s: string, i: nat)
    requires SingleSpaced(s) && i <= |s|
    ensures Join(SplitFrom(s, i), " ") == s[i..]
    decreases |s| - i
  {
    var j := TokenEnd(s, i);
    if j < |s| {
      assert s[j] == ' ' && j + 1 < |s| && !IsWhitespace(s[j + 1]);
      RunEndAt(s, j, j + 1);
      JoinSplitFrom(s, j + 1);
      JoinSplitStep(s, i, j);
    } else {
      assert SplitFrom(s, i) == [s[i..]];
    }
  }

  lemma JoinSplitStep(s: string, i: nat, j: nat)
    requires i <= j && j + 1 < |s| && TokenEnd(s, i) == j && RunEnd(s, j) == j + 1 && s[j] == ' '
    requires Join(SplitFrom(s, j + 1), " ") == s[j + 1..]
    ensures Join(SplitFrom(s, i), " ") == s[i..]
  {
    var t := SplitFrom(s, j + 1);
    var r := SplitFrom(s, i);
    assert r == [s[i..j]] + t;
    assert r[1..] == t;
    assert Join(r, " ") == s[i..j] + " " + s[j + 1..];
    assert s[i..] == s[i..j] + [s[j]] + s[j + 1..];
  }

  /** `hay.slice(i, i + |needle|) === needle`. */
  predicate OccursAt(hay: string, needle: string, i: int) {
    0 <= i && i + |needle| <= |hay| && hay[i..i + |needle|] == needle
  }

  /** `hay.lastIndexOf(needle)`: the right-most index where `needle` occurs in `hay`, or -1. */
  function LastIndexOf(hay: string, needle: string): (r: int)
    ensures -1 <= r
  {
    LastIndexAtOrBefore(hay, needle, |hay| - |needle|)
  }

  /** `lastIndexOf` is -1 or an occurrence, and no occurrence lies to its right. */
  lemma LastIndexOfProperties(hay: string, needle: string)
    ensures var r := LastIndexOf(hay, needle);
      && (r >= 0 ==> OccursAt(hay, needle, r))
      && (forall j :: r < j ==> !OccursAt(hay, needle, j))
  {
    LastIndexAtOrBeforeProperties(hay, needle, |hay| - |needle|);
  }

  /** The right-most occurrence of `needle` in `hay` at an index up to `i`, or -1. */
  function LastIndexAtOrBefore(hay: string, needle: string, i: int): (r: int)
    ensures -1 <= r <= if i < 0 then -1 else i
    decreases i + 1
  {
    if i < 0 then -1
    else if OccursAt(hay, needle, i) then i
    else LastIndexAtOrBefore(hay, needle, i - 1)
  }

  lemma {:induction false} LastIndexAtOrBeforeProperties(hay: string, needle: string, i: int)
    ensures var r := LastIndexAtOrBefore(hay, needle, i);
      && (r >= 0 ==> OccursAt(hay, needle, r))
      && (forall j :: r < j <= i ==> !OccursAt(hay, needle, j))
    decreases i + 1
  {
    if i >= 0 && !OccursAt(hay, needle, i) {
      LastIndexAtOrBeforeProperties(hay, needle, i - 1);
    }
  }

  /** `s.startsWith(prefix)`. */
  predicate StartsWith(s: string, prefix: string) {
    |prefix| <= |s| && s[..|prefix|] == prefix
  }

  /** The lower-case hexadecimal digit for `d`. */
  function HexDigit(d: nat): char
    requires d < 16
  {
    if d < 10 then ('0' as int + d) as char else ('a' as int + d - 10) as char
  }

  /** The value of a hexadecimal digit, or -1 for any other character. */
  function HexDigitValue(c: char): int {
    if '0' <= c <= '9' then c as int - '0' as int
    else if 'a' <= c <= 'f' then c as int - 'a' as int + 10
    else if 'A' <= c <= 'F' then c as int - 'A' as int + 10
    else -1
  }

  predicate IsHexDigits(s: string) {
    forall i :: 0 <= i < |s| ==> HexDigitValue(s[i]) >= 0
  }

  /** The number written in hexadecimal by the digits `s` (0 for no digits). */
  function HexValue(s: string): nat
    requires IsHexDigits(s)
  {
    if s == [] then 0 else HexValue(s[..|s| - 1]) * 16 + HexDigitValue(s[|s| - 1])
  }

  /** `n.toString(16)` for an integer byte value: one digit below 16, two from 16 on. */
  function ByteToHex(n: nat): (r: string)
    requires n < 256
    ensures IsHexDigits(r) && HexValue(r) == n
    ensures |r| == if n < 16 then 1 else 2
  {
    if n < 16 then
      assert [HexDigit(n)][..0] == [];
      [HexDigit(n)]
    else
      var r := [HexDigit(n / 16), HexDigit(n % 16)];
      assert r[..1][..0] == [];
      assert HexValue(r[..1]) == n / 16;
      assert n / 16 * 16 + n % 16 == n;
      r
  }
}
