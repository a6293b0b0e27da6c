/**
 * src/color.ts: the highlight groups that colour the document's colour
 * values. `getHlGroup` names a group after a colour and remembers which
 * colours it has named; `attchHighlight` turns the server's colour list into
 * a script that defines the new groups and a grouping of ranges by group.
 * src/index.ts holds a second copy of `getHlGroup`, `fixNum` and of the
 * highlight steps with its own cache; the same members model both.
 */
module Color {

  import opened JsArray
  import opened JsString
  import opened ArrayUtil

  /** `hlPrefix`. */
  const HlPrefix: string := "coc_tailwind"

  /** `${hlPrefix}_${color}`: the highlight group named after a colour. */
  function HlGroupName(color: string): string {
    HlPrefix + "_" + color
  }

  /** The colour a group is named after, when the name has the group prefix. */
  function ColorOfGroup(group: string): (r: string)
    requires StartsWith(group, HlPrefix + "_")
    ensures HlGroupName(r) == group
  {
    var n := |HlPrefix + "_"|;
    assert group == group[..n] + group[n..];
    group[n..]
  }

  /** Naming a group after a colour can be undone, so different colours get different groups. */
  lemma {:induction false} HlGroupNameRoundTrip(color: string)
    ensures StartsWith(HlGroupName(color), HlPrefix + "_")
    ensures ColorOfGroup(HlGroupName(color)) == color
  {
    assert HlGroupName(color)[..|HlPrefix + "_"|] == HlPrefix + "_";
  }

  lemma {:induction false} HlGroupNameInjective(a: string, b: string)
    ensures HlGroupName(a) == HlGroupName(b) ==> a == b
  {
    HlGroupNameRoundTrip(a);
    HlGroupNameRoundTrip(b);
  }

  // ---- fixNum ----

  /** `fixNum`: a single `'0'` in front of an input shorter than two characters. */
  function FixNum(num: string): (r: string)
    ensures |r| == if |num| < 2 then |num| + 1 else |num|
    ensures r[|r| - |num|..] == num
    ensures forall i :: 0 <= i < |r| - |num| ==> r[i] == '0'
  {
    if |num| < 2 then "0" + num else num
  }

  /** A leading zero digit does not change the value. */
  lemma {:induction false} HexValueLeadingZero(s: string)
    requires IsHexDigits(s)
    ensures IsHexDigits("0" + s) && HexValue("0" + s) == HexValue(s)
    decreases |s|
  {
    if s != [] {
      var init := s[..|s| - 1];
      HexValueLeadingZero(init);
      assert ("0" + s)[..|s|] == "0" + init;
    }
  }

  /** The digits of `s + t` are worth those of `s` shifted past those of `t`. */
  lemma {:induction false} HexValueAppend(s: string, t: string)
    requires IsHexDigits(s) && IsHexDigits(t)
    ensures IsHexDigits(s + t) && HexValue(s + t) == HexValue(s) * Pow16(|t|) + HexValue(t)
    decreases |t|
  {
    if t == [] {
      assert s + t == s;
    } else {
      var init := t[..|t| - 1];
      var last := t[|t| - 1];
      HexValueAppend(s, init);
      assert (s + t)[..|s + t| - 1] == s + init && (s + t)[|s + t| - 1] == last;
      assert HexValue(s + t) == HexValue(s + init) * 16 + HexDigitValue(last);
      ShiftDigit(HexValue(s), Pow16(|init|), HexValue(init), HexDigitValue(last));
    }
  }

  /** Appending a digit multiplies by 16 both parts of a shifted sum. */
  lemma ShiftDigit(a: int, p: int, b: int, d: int)
    ensures (a * p + b) * 16 + d == a * (p * 16) + (b * 16 + d)
  {
    calc {
      (a * p + b) * 16 + d;
      a * p * 16 + b * 16 + d;
    }
  }

  function Pow16(n: nat): nat {
    if n == 0 then 1 else Pow16(n - 1) * 16
  }

  /**
   * `fixNum(n.toString(16))` for a byte `n`: always two hexadecimal digits,
   * worth `n`.
   */
  lemma {:induction false} FixNumByte(n: nat)
    requires n < 256
    ensures |FixNum(ByteToHex(n))| == 2
    ensures IsHexDigits(FixNum(ByteToHex(n))) && HexValue(FixNum(ByteToHex(n))) == n
  {
    if n < 16 {
      HexValueLeadingZero(ByteToHex(n));
    }
  }

  /**
   * The digits `toHexCons` builds from three channel bytes: six digits that
   * give back the three bytes, so different colours get different names.
   */
  function HexOfBytes(red: nat, green: nat, blue: nat): string
    requires red < 256 && green < 256 && blue < 256
  {
    FixNum(ByteToHex(red)) + FixNum(ByteToHex(green)) + FixNum(ByteToHex(blue))
  }

  lemma {:induction false} HexOfBytesValue(red: nat, green: nat, blue: nat)
    requires red < 256 && green < 256 && blue < 256
    ensures |HexOfBytes(red, green, blue)| == 6
    ensures IsHexDigits(HexOfBytes(red, green, blue))
    ensures HexValue(HexOfBytes(red, green, blue)) == red * 65536 + green * 256 + blue
  {
    var r, g, b := FixNum(ByteToHex(red)), FixNum(ByteToHex(green)), FixNum(ByteToHex(blue));
    FixNumByte(red);
    FixNumByte(green);
    FixNumByte(blue);
    HexValueAppend(r, g);
    HexValueAppend(r + g, b);
    assert Pow16(2) == 256;
  }

  lemma {:induction false} HexOfBytesInjective(r1: nat, g1: nat, b1: nat, r2: nat, g2: nat, b2: nat)
    requires r1 < 256 && g1 < 256 && b1 < 256 && r2 < 256 && g2 < 256 && b2 < 256
    requires HexOfBytes(r1, g1, b1) == HexOfBytes(r2, g2, b2)
    ensures r1 == r2 && g1 == g2 && b1 == b2
  {
    HexOfBytesValue(r1, g1, b1);
    HexOfBytesValue(r2, g2, b2);
  }

  // ---- the cache of defined groups ----

  /** A colour the server reported, as `{ hex, range }`. */
  datatype HexUnit<R> = HexUnit(hex: string, range: R)

  /** `{ group, range, have }`: the group for a unit and whether its colour was seen before. */
  datatype GroupUnit<R> = GroupUnit(group: string, range: R, have: bool)

  /** The colour of unit `i` already occurs earlier in `units`. */
  predicate SeenBefore<R>(units: seq<HexUnit<R>>, i: nat)
    requires i < |units|
  {
    exists j :: 0 <= j < i && units[j].hex == units[i].hex
  }

  /**
   * `groups` is what `rangeWithHexArray.map(getHlGroup ...)` yields for
   * `units` from the cache `cache`: every unit keeps its range and gets the
   * group named after its colour, and `have` holds exactly when the colour
   * was cached before the batch or came earlier in it.
   */
  ghost predicate Annotated<R>(units: seq<HexUnit<R>>, cache: set<string>, groups: seq<GroupUnit<R>>) {
    && |groups| == |units|
    && (forall i :: 0 <= i < |units| ==>
          && groups[i].group == HlGroupName(units[i].hex)
          && groups[i].range == units[i].range
          && (groups[i].have <==> units[i].hex in cache || SeenBefore(units, i)))
  }

  /** The module-level `cacheHlGroups` set, with the function that updates it. */
  class HighlightCache {
    var cacheHlGroups: set<string>

    constructor ()
      ensures cacheHlGroups == {}
    {
      cacheHlGroups := {};
    }

    /**
     * `getHlGroup`: whether the colour was cached, and its group; the colour
     * is cached afterwards.
     */
    method GetHlGroup(color: string) returns (have: bool, group: string)
      modifies this
      ensures have <==> color in old(cacheHlGroups)
      ensures group == HlGroupName(color)
      ensures cacheHlGroups == old(cacheHlGroups) + {color}
    {
      if color in cacheHlGroups {
        return true, HlGroupName(color);
      }
      cacheHlGroups := cacheHlGroups + {color};
      return false, HlGroupName(color);
    }

    /** Lines 68-75: `getHlGroup` on every unit, in order. */
    method AnnotateUnits<R>(units: seq<HexUnit<R>>) returns (groups: seq<GroupUnit<R>>)
      modifies this
      ensures Annotated(units, old(cacheHlGroups), groups)
      ensures cacheHlGroups == old(cacheHlGroups) + set i | 0 <= i < |units| :: units[i].hex
    {
      groups := [];
      for i := 0 to |units|
        invariant Annotated(units[..i], old(cacheHlGroups), groups)
        invariant cacheHlGroups == old(cacheHlGroups) + set j | 0 <= j < i :: units[j].hex
      {
        var unit := units[i];
        assert SeenBefore(units, i) <==> unit.hex in (set j | 0 <= j < i :: units[j].hex);
        var have, group := GetHlGroup(unit.hex);
        groups := groups + [GroupUnit(group, unit.range, have)];
        AnnotatedSnoc(units, i, old(cacheHlGroups), groups);
        assert (set j | 0 <= j < i + 1 :: units[j].hex) == (set j | 0 <= j < i :: units[j].hex) + {unit.hex};
      }
      assert units[..|units|] == units;
    }

    /**
     * The highlighting part of `attchHighlight`: annotate the units, build
     * the script of definitions for the new groups (run only when it is not
     * empty), and group the ranges by highlight group.
     */
    method AttachHighlight<R>(units: seq<HexUnit<R>>)
        returns (groups: seq<GroupUnit<R>>, script: string, entries: seq<(string, seq<R>)>)
      modifies this
      ensures Annotated(units, old(cacheHlGroups), groups)
      ensures cacheHlGroups == old(cacheHlGroups) + set i | 0 <= i < |units| :: units[i].hex
      ensures script == ScriptText(ScriptCommands(units, groups))
      ensures |script| > 0 <==> exists i :: 0 <= i < |units| && units[i].hex !in old(cacheHlGroups)
      ensures |entries| == |FirstGroups(groups)|
      ensures forall k :: 0 <= k < |entries| ==>
        entries[k].0 == FirstGroups(groups)[k] && entries[k].1 == RangesOf(groups, entries[k].0)
    {
      groups := AnnotateUnits(units);
      var commands := ScriptCommands(units, groups);
      script := ScriptText(commands);
      ScriptTextEmpty(commands);
      ScriptCommandsNonEmpty(units, old(cacheHlGroups), groups);
      entries := GroupRanges(groups);
    }
  }

  /** The step of AnnotateUnits: one more unit annotated. */
  lemma {:induction false} AnnotatedSnoc<R>(units: seq<HexUnit<R>>, i: nat, cache: set<string>, groups: seq<GroupUnit<R>>)
    requires i < |units| && |groups| == i + 1
    requires Annotated(units[..i], cache, groups[..i])
    requires groups[i].group == HlGroupName(units[i].hex) && groups[i].range == units[i].range
    requires groups[i].have <==> units[i].hex in cache || SeenBefore(units, i)
    ensures Annotated(units[..i + 1], cache, groups)
  {
    var pre := units[..i + 1];
    forall k | 0 <= k <= i
      ensures SeenBefore(pre, k) <==> SeenBefore(units, k)
    {
      assert forall j :: 0 <= j <= k ==> pre[j] == units[j];
    }
    forall k | 0 <= k < i
      ensures groups[k] == groups[..i][k] && SeenBefore(pre, k) == SeenBefore(units[..i], k)
    {
      assert forall j :: 0 <= j <= k ==> pre[j] == units[..i][j];
    }
  }

  /** Two calls with the same colour: only the first one finds it missing. */
  method RepeatedColor(cache: HighlightCache, color: string) returns (first: bool, second: bool)
    modifies cache
    ensures first <==> color in old(cache.cacheHlGroups)
    ensures second
  {
    var group;
    first, group := cache.GetHlGroup(color);
    second, group := cache.GetHlGroup(color);
  }

  /** The first unit with the colour of unit `i`. */
  lemma {:induction false} FirstOccurrence<R>(units: seq<HexUnit<R>>, i: nat) returns (k: nat)
    requires i < |units|
    ensures k <= i && units[k].hex == units[i].hex && !SeenBefore(units, k)
  {
    if SeenBefore(units, i) {
      var j :| 0 <= j < i && units[j].hex == units[i].hex;
      k := FirstOccurrence(units, j);
    } else {
      k := i;
    }
  }

  /** A colour missing from the cache is new at its first occurrence in the batch. */
  lemma {:induction false} FirstOccurrenceIsNew<R>(units: seq<HexUnit<R>>, cache: set<string>, groups: seq<GroupUnit<R>>, i: nat)
      returns (k: nat)
    requires Annotated(units, cache, groups)
    requires i < |units| && units[i].hex !in cache
    ensures k <= i && units[k].hex == units[i].hex && !groups[k].have && groups[k].group == groups[i].group
  {
    k := FirstOccurrence(units, i);
  }

  // ---- the script that defines the new groups (lines 76-84) ----

  /** `hi <group> guibg=#<colour>`: one highlight definition. */
  datatype HiCommand = Hi(group: string, guibg: string)

  function RenderHi(c: HiCommand): (r: string)
    ensures |r| > 0
  {
    "hi " + c.group + " guibg=#" + c.guibg
  }

  function RenderLines(cmds: seq<HiCommand>): (r: seq<string>)
    ensures |r| == |cmds| && forall i :: 0 <= i < |cmds| ==> r[i] == RenderHi(cmds[i])
  {
    if cmds == [] then [] else [RenderHi(cmds[0])] + RenderLines(cmds[1..])
  }

  /** The script text: the definitions joined by newlines. */
  function ScriptText(cmds: seq<HiCommand>): string {
    Join(RenderLines(cmds), "\n")
  }

  /** `script.length > 0`, the guard of `nvim.exec`, holds exactly when there is a definition. */
  lemma {:induction false} ScriptTextEmpty(cmds: seq<HiCommand>)
    ensures |ScriptText(cmds)| > 0 <==> cmds != []
  {
    if cmds != [] {
      JoinStartsWithFirst(RenderLines(cmds), "\n");
    }
  }

  /**
   * Line 78 as written: the template puts the prefix in front of `hg.group`,
   * which already carries it, and uses the group name as the colour.
   */
  function ScriptCommandsAsWritten<R>(groups: seq<GroupUnit<R>>): (r: seq<HiCommand>)
    ensures forall c :: c in r ==>
      exists j :: 0 <= j < |groups| && !groups[j].have && c == Hi(HlPrefix + "_" + groups[j].group, groups[j].group)
  {
    if groups == [] then []
    else
      var rest := ScriptCommandsAsWritten(groups[1..]);
      assert forall c :: c in rest ==>
        exists j :: 1 <= j < |groups| && !groups[j].have && c == Hi(HlPrefix + "_" + groups[j].group, groups[j].group) by {
        forall c | c in rest
          ensures exists j :: 1 <= j < |groups| && !groups[j].have && c == Hi(HlPrefix + "_" + groups[j].group, groups[j].group)
        {
          var j :| 0 <= j < |groups[1..]| && !groups[1..][j].have && c == Hi(HlPrefix + "_" + groups[1..][j].group, groups[1..][j].group);
          assert groups[1..][j] == groups[j + 1];
        }
      }
      (if groups[0].have then [] else [Hi(HlPrefix + "_" + groups[0].group, groups[0].group)]) + rest
  }

  /**
   * The definitions the script should hold: every group met for the first
   * time, with the colour it is named after.
   */
  function ScriptCommands<R>(units: seq<HexUnit<R>>, groups: seq<GroupUnit<R>>): (r: seq<HiCommand>)
    requires |units| == |groups|
    ensures forall i :: 0 <= i < |groups| && !groups[i].have ==> Hi(groups[i].group, units[i].hex) in r
    ensures forall c :: c in r ==>
      exists j :: 0 <= j < |groups| && !groups[j].have && c == Hi(groups[j].group, units[j].hex)
  {
    if groups == [] then []
    else
      var rest := ScriptCommands(units[1..], groups[1..]);
      var head := if groups[0].have then [] else [Hi(groups[0].group, units[0].hex)];
      assert forall i :: 1 <= i < |groups| && !groups[i].have ==> Hi(groups[i].group, units[i].hex) in rest by {
        forall i | 1 <= i < |groups| && !groups[i].have
          ensures Hi(groups[i].group, units[i].hex) in rest
        {
          assert groups[1..][i - 1] == groups[i] && units[1..][i - 1] == units[i];
        }
      }
      assert forall c :: c in rest ==>
        exists j :: 1 <= j < |groups| && !groups[j].have && c == Hi(groups[j].group, units[j].hex) by {
        forall c | c in rest
          ensures exists j :: 1 <= j < |groups| && !groups[j].have && c == Hi(groups[j].group, units[j].hex)
        {
          var j :| 0 <= j < |groups[1..]| && !groups[1..][j].have && c == Hi(groups[1..][j].group, units[1..][j].hex);
          assert groups[1..][j] == groups[j + 1] && units[1..][j] == units[j + 1];
        }
      }
      head + rest
  }

  /** The script has a definition exactly when some colour of the batch was not cached. */
  lemma {:induction false} ScriptCommandsNonEmpty<R>(units: seq<HexUnit<R>>, cache: set<string>, groups: seq<GroupUnit<R>>)
    requires Annotated(units, cache, groups)
    ensures ScriptCommands(units, groups) != [] <==> exists i :: 0 <= i < |units| && units[i].hex !in cache
  {
    var cmds := ScriptCommands(units, groups);
    if cmds != [] {
      assert cmds[0] in cmds;
      var j :| 0 <= j < |groups| && !groups[j].have && cmds[0] == Hi(groups[j].group, units[j].hex);
    }
    if i :| 0 <= i < |units| && units[i].hex !in cache {
      var k := FirstOccurrenceIsNew(units, cache, groups, i);
      assert Hi(groups[k].group, units[k].hex) in cmds;
    }
  }

  /** The groups a list of definitions defines. */
  function DefinedGroups(cmds: seq<HiCommand>): set<string> {
    set c | c in cmds :: c.group
  }

  /**
   * Every group the ranges are highlighted with is defined: by this script,
   * or earlier, when its colour was already cached.
   */
  lemma {:induction false} ScriptDefinesUsedGroups<R>(units: seq<HexUnit<R>>, cache: set<string>, groups: seq<GroupUnit<R>>)
    requires Annotated(units, cache, groups)
    ensures forall i :: 0 <= i < |units| ==>
      units[i].hex in cache || groups[i].group in DefinedGroups(ScriptCommands(units, groups))
  {
    forall i | 0 <= i < |units| && units[i].hex !in cache
      ensures groups[i].group in DefinedGroups(ScriptCommands(units, groups))
    {
      var k := FirstOccurrenceIsNew(units, cache, groups, i);
      assert Hi(groups[k].group, units[k].hex) in ScriptCommands(units, groups);
    }
  }

  /**
   * Each definition names a new colour's group and gives that colour, so the
   * script defines exactly the groups of the colours not cached before.
   */
  lemma {:induction false} ScriptDefinesNewColors<R>(units: seq<HexUnit<R>>, cache: set<string>, groups: seq<GroupUnit<R>>)
    requires Annotated(units, cache, groups)
    ensures forall c :: c in ScriptCommands(units, groups) ==>
      c.group == HlGroupName(c.guibg) && c.guibg !in cache && exists j :: 0 <= j < |units| && units[j].hex == c.guibg
    ensures DefinedGroups(ScriptCommands(units, groups))
         == set i | 0 <= i < |units| && units[i].hex !in cache :: HlGroupName(units[i].hex)
  {
    var cmds := ScriptCommands(units, groups);
    ScriptDefinesUsedGroups(units, cache, groups);
    forall c | c in cmds
      ensures c.group == HlGroupName(c.guibg) && c.guibg !in cache && exists j :: 0 <= j < |units| && units[j].hex == c.guibg
    {
      var j :| 0 <= j < |groups| && !groups[j].have && c == Hi(groups[j].group, units[j].hex);
    }
    var news := set i | 0 <= i < |units| && units[i].hex !in cache :: HlGroupName(units[i].hex);
    forall g | g in DefinedGroups(cmds) ensures g in news {
      var c :| c in cmds && c.group == g;
      var j :| 0 <= j < |groups| && !groups[j].have && c == Hi(groups[j].group, units[j].hex);
    }
  }

  /**
   * As written, no definition in the script is a group the ranges are
   * highlighted with, and no definition's colour is hexadecimal: for
   * six-digit colours the defined names are 32 characters long and the used
   * ones 19.
   */
  lemma {:induction false} ScriptAsWrittenDefinesNoUsedGroup<R>(units: seq<HexUnit<R>>, cache: set<string>, groups: seq<GroupUnit<R>>)
    requires Annotated(units, cache, groups)
    requires forall i :: 0 <= i < |units| ==> |units[i].hex| == 6
    ensures forall i :: 0 <= i < |groups| ==> groups[i].group !in DefinedGroups(ScriptCommandsAsWritten(groups))
    ensures forall c :: c in ScriptCommandsAsWritten(groups) ==> !IsHexDigits(c.guibg)
  {
    var cmds := ScriptCommandsAsWritten(groups);
    forall c | c in cmds
      ensures |c.group| == 32 && !IsHexDigits(c.guibg)
    {
      var j :| 0 <= j < |groups| && !groups[j].have && c == Hi(HlPrefix + "_" + groups[j].group, groups[j].group);
      assert c.guibg[1] == 'o';
    }
  }

  /** One new colour is enough: its range is highlighted with a group the script never defines. */
  lemma {:induction false} ScriptAsWrittenExample<R>(hex: string, range: R)
    requires |hex| == 6
    ensures var groups := [GroupUnit(HlGroupName(hex), range, false)];
      && Annotated([HexUnit(hex, range)], {}, groups)
      && ScriptCommandsAsWritten(groups) == [Hi(HlPrefix + "_" + HlGroupName(hex), HlGroupName(hex))]
      && HlGroupName(hex) !in DefinedGroups(ScriptCommandsAsWritten(groups))
  {
    var groups := [GroupUnit(HlGroupName(hex), range, false)];
    assert groups[1..] == [];
    ScriptAsWrittenDefinesNoUsedGroup([HexUnit(hex, range)], {}, groups);
  }

  // ---- the ranges grouped by highlight group (lines 86-100) ----

  /** The groups of `groups`, in order. */
  function GroupNames<R>(groups: seq<GroupUnit<R>>): (r: seq<string>)
    ensures |r| == |groups| && forall i :: 0 <= i < |groups| ==> r[i] == groups[i].group
  {
    if groups == [] then [] else GroupNames(groups[..|groups| - 1]) + [groups[|groups| - 1].group]
  }

  /** The ranges of the units in group `g`, in order. */
  function RangesOf<R>(groups: seq<GroupUnit<R>>, g: string): seq<R> {
    if groups == [] then []
    else
      var last := groups[|groups| - 1];
      RangesOf(groups[..|groups| - 1], g) + (if last.group == g then [last.range] else [])
  }

  /** Every unit's range is among the ranges of its group, and only listed groups have ranges. */
  lemma {:induction false} RangesOfMember<R>(groups: seq<GroupUnit<R>>, g: string)
    ensures forall i :: 0 <= i < |groups| && groups[i].group == g ==> groups[i].range in RangesOf(groups, g)
    ensures g !in GroupNames(groups) ==> RangesOf(groups, g) == []
    ensures |RangesOf(groups, g)| <= |groups|
  {
    if groups != [] {
      var init := groups[..|groups| - 1];
      RangesOfMember(init, g);
      forall i | 0 <= i < |init| && groups[i].group == g
        ensures groups[i].range in RangesOf(groups, g)
      {
        assert init[i] == groups[i];
      }
      if g !in GroupNames(groups) {
        assert forall x :: x in GroupNames(init) ==> x in GroupNames(groups);
      }
    }
  }

  /**
   * The `reduce` into a `Map` and its `entries()`: one entry per group, in
   * the order the groups first appear, holding that group's ranges in order.
   */
  method GroupRanges<R>(groups: seq<GroupUnit<R>>) returns (entries: seq<(string, seq<R>)>)
    ensures |entries| == |FirstGroups(groups)|
    ensures forall k :: 0 <= k < |entries| ==>
      entries[k].0 == FirstGroups(groups)[k] && entries[k].1 == RangesOf(groups, entries[k].0)
  {
    var keys: seq<string> := [];
    var result: map<string, seq<R>> := map[];
    for i := 0 to |groups|
      invariant Grouped(groups[..i], keys, result)
    {
      var unit := groups[i];
      assert groups[..i + 1] == groups[..i] + [unit];
      if unit.group in result {
        GroupedExisting(groups[..i], unit, keys, result);
        result := result[unit.group := result[unit.group] + [unit.range]];
      } else {
        GroupedNew(groups[..i], unit, keys, result);
        result := result[unit.group := [unit.range]];
        keys := keys + [unit.group];
      }
    }
    assert groups[..|groups|] == groups;
    GroupedEntries(groups, keys, result);
    entries := seq(|keys|, k requires 0 <= k < |keys| => (keys[k], result[keys[k]]));
  }

  /** At the end of the `reduce`, every key has an entry holding its group's ranges. */
  lemma GroupedEntries<R>(groups: seq<GroupUnit<R>>, keys: seq<string>, result: map<string, seq<R>>)
    requires Grouped(groups, keys, result)
    ensures forall k :: 0 <= k < |keys| ==> keys[k] in result && result[keys[k]] == RangesOf(groups, keys[k])
  {
    FirstGroupsIsDedupe(groups);
    DedupeProperties(GroupNames(groups));
    forall k | 0 <= k < |keys| ensures keys[k] in result {
      assert keys[k] in GroupNames(groups);
    }
  }

  /** The groups in the order they first appear: the keys of the `Map` in insertion order. */
  function FirstGroups<R>(groups: seq<GroupUnit<R>>): seq<string> {
    if groups == [] then []
    else
      var init := groups[..|groups| - 1];
      var g := groups[|groups| - 1].group;
      FirstGroups(init) + (if g in GroupNames(init) then [] else [g])
  }

  /** The insertion order of the keys is `dedupe` of the groups. */
  lemma {:induction false} FirstGroupsIsDedupe<R>(groups: seq<GroupUnit<R>>)
    ensures FirstGroups(groups) == Dedupe(GroupNames(groups))
  {
    if groups != [] {
      var init := groups[..|groups| - 1];
      FirstGroupsIsDedupe(init);
      GroupStep(init, groups[|groups| - 1]);
      assert init + [groups[|groups| - 1]] == groups;
      DedupeSnoc(GroupNames(init), groups[|groups| - 1].group);
    }
  }

  /**
   * The state of the `reduce` after the units `done`: the map's keys in
   * insertion order and the map itself.
   */
  ghost predicate Grouped<R>(done: seq<GroupUnit<R>>, keys: seq<string>, result: map<string, seq<R>>) {
    && keys == FirstGroups(done)
    && (forall g :: g in result <==> g in GroupNames(done))
    && (forall g :: g in result ==> result[g] == RangesOf(done, g))
  }

  /** One step of the `reduce` for a group met before: its list grows by the unit's range. */
  lemma GroupedExisting<R>(done: seq<GroupUnit<R>>, unit: GroupUnit<R>, keys: seq<string>, result: map<string, seq<R>>)
    requires Grouped(done, keys, result) && unit.group in result
    ensures Grouped(done + [unit], keys, result[unit.group := result[unit.group] + [unit.range]])
  {
    var next := result[unit.group := result[unit.group] + [unit.range]];
    assert (done + [unit])[..|done|] == done;
    GroupedKeys(done, unit, result, next);
    GroupStep(done, unit);
    GroupedValues(done, unit, result, next);
  }

  /** One step of the `reduce` for a new group: the map gets a key with a one-range list. */
  lemma GroupedNew<R>(done: seq<GroupUnit<R>>, unit: GroupUnit<R>, keys: seq<string>, result: map<string, seq<R>>)
    requires Grouped(done, keys, result) && unit.group !in result
    ensures Grouped(done + [unit], keys + [unit.group], result[unit.group := [unit.range]])
  {
    var next := result[unit.group := [unit.range]];
    assert (done + [unit])[..|done|] == done;
    GroupedKeys(done, unit, result, next);
    RangesOfMember(done, unit.group);
    GroupStep(done, unit);
    GroupedValues(done, unit, result, next);
  }

  /** After a step the map's keys are the groups seen so far. */
  lemma GroupedKeys<R>(done: seq<GroupUnit<R>>, unit: GroupUnit<R>, result: map<string, seq<R>>, next: map<string, seq<R>>)
    requires forall g :: g in result <==> g in GroupNames(done)
    requires next.Keys == result.Keys + {unit.group}
    ensures forall g :: g in next <==> g in GroupNames(done + [unit])
  {
    GroupStep(done, unit);
  }

  /** After a step every list holds its group's ranges so far. */
  lemma GroupedValues<R>(done: seq<GroupUnit<R>>, unit: GroupUnit<R>, result: map<string, seq<R>>, next: map<string, seq<R>>)
    requires forall g :: g in result ==> result[g] == RangesOf(done, g)
    requires unit.group in next
    requires next[unit.group] == RangesOf(done, unit.group) + [unit.range]
    requires forall g :: g in next && g != unit.group ==> g in result && next[g] == result[g]
    ensures forall g :: g in next ==> next[g] == RangesOf(done + [unit], g)
  {
    GroupStep(done, unit);
  }

  /** One more unit: its group is appended to the names and its range to its group's ranges. */
  lemma GroupStep<R>(pre: seq<GroupUnit<R>>, unit: GroupUnit<R>)
    ensures GroupNames(pre + [unit]) == GroupNames(pre) + [unit.group]
    ensures forall g :: RangesOf(pre + [unit], g) == RangesOf(pre, g) + (if unit.group == g then [unit.range] else [])
  {
    assert (pre + [unit])[..|pre|] == pre;
  }
}
