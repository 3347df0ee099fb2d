/** The world of lib/world.py: the ordered list of level names read from the
    world file, and the cursor that hands them out one after another while
    recording in the configuration store how far the player got. */
module Worlds {
  import opened Wrappers
  import opened Text
  import opened Log

  /** What one line of the world file contributes: nothing for a blank line or
      a line that does not start with "level", the second token of a "level"
      line, and IndexError for a "level" line with no second token. */
  function LevelOfLine(line: string): Result<Option<string>> {
    SplitEmptyIffBlank(Bytes, line);
    if Strip(Bytes, line) == [] then Ok(None)
    else
      var values := Split(Bytes, line);
      if values[0] != "level" then Ok(None)
      else if |values| < 2 then Err("IndexError")
      else Ok(Some(values[1]))
  }

  /** A line fails exactly when its only token is "level", and names a level
      exactly when it has at least two tokens, the first being "level": the
      name is the second token. */
  lemma LevelOfLineMeaning(line: string)
    ensures LevelOfLine(line) == Err("IndexError") <==> Split(Bytes, line) == ["level"]
    ensures LevelOfLine(line).Ok? && LevelOfLine(line).value.Some? <==> |Split(Bytes, line)| >= 2 && Split(Bytes, line)[0] == "level"
    ensures LevelOfLine(line).Ok? && LevelOfLine(line).value.Some? ==> LevelOfLine(line).value.value == Split(Bytes, line)[1]
  {
    SplitEmptyIffBlank(Bytes, line);
  }

  /** The level list the World constructor builds from the lines of the world
      file, or the error of the first malformed "level" line. */
  function LevelList(lines: seq<string>): Result<seq<string>> {
    if lines == [] then Ok([])
    else
      match LevelList(lines[..|lines| - 1])
      case Err(e) => Err(e)
      case Ok(levels) =>
        match LevelOfLine(lines[|lines| - 1])
        case Err(e) => Err(e)
        case Ok(None) => Ok(levels)
        case Ok(Some(name)) => Ok(levels + [name])
  }

  /** The loop of the World constructor over the lines of the world file. */
  method ParseLevelList(lines: seq<string>) returns (r: Result<seq<string>>)
    ensures r == LevelList(lines)
  {
    var levels: seq<string> := [];
    var i := 0;
    while i < |lines|
      invariant 0 <= i <= |lines|
      invariant LevelList(lines[..i]) == Ok(levels)
    {
      assert lines[..i + 1][..i] == lines[..i];
      var entry := LevelOfLine(lines[i]);
      if entry.Err? {
        r := Err(entry.error);
        LevelListStopsAtError(lines, i + 1);
        return;
      }
      if entry.value.Some? {
        levels := levels + [entry.value.value];
      }
      i := i + 1;
    }
    assert lines[..i] == lines;
    r := Ok(levels);
  }

  /** Once a prefix of the world file fails, the whole file fails with the same error. */
  lemma {:induction false} LevelListStopsAtError(lines: seq<string>, k: nat)
    requires k <= |lines| && LevelList(lines[..k]).Err?
    ensures LevelList(lines) == LevelList(lines[..k])
    decreases |lines| - k
  {
    if k < |lines| {
      assert lines[..k + 1][..k] == lines[..k];
      LevelListStopsAtError(lines, k + 1);
    } else {
      assert lines[..k] == lines;
    }
  }

  /** The world file that lists `names` one per line, as "level <name>". */
  function WorldFile(names: seq<string>): (lines: seq<string>)
    ensures |lines| == |names|
  {
    if names == [] then [] else WorldFile(names[..|names| - 1]) + [LevelLine(names[|names| - 1])]
  }

  /** The world file's line for one level. */
  function LevelLine(name: string): string {
    "level" + " " + name + "\n"
  }

  /** Reading a world file that lists level names gives back exactly those
      names, in order. */
  lemma {:induction false} WorldFileRoundTrip(names: seq<string>)
    requires forall i :: 0 <= i < |names| ==> IsWord(Bytes, names[i])
    ensures LevelList(WorldFile(names)) == Ok(names)
  {
    if names != [] {
      var p := names[..|names| - 1];
      var n := names[|names| - 1];
      assert names == p + [n];
      WorldFileRoundTrip(p);
      WorldFileStep(p, n);
    }
  }

  lemma WorldFileStep(p: seq<string>, n: string)
    requires LevelList(WorldFile(p)) == Ok(p) && IsWord(Bytes, n)
    ensures LevelList(WorldFile(p + [n])) == Ok(p + [n])
  {
    assert (p + [n])[..|p|] == p;
    assert WorldFile(p + [n]) == WorldFile(p) + [LevelLine(n)];
    LevelLineRoundTrip(n);
    LevelListAppend(WorldFile(p), LevelLine(n), p, n);
  }

  lemma LevelListAppend(pre: seq<string>, line: string, p: seq<string>, n: string)
    requires LevelList(pre) == Ok(p) && LevelOfLine(line) == Ok(Some(n))
    ensures LevelList(pre + [line]) == Ok(p + [n])
  {
    assert (pre + [line])[..|pre|] == pre;
  }

  lemma LevelLineRoundTrip(n: string)
    requires IsWord(Bytes, n)
    ensures LevelOfLine(LevelLine(n)) == Ok(Some(n))
  {
    LevelIsWord();
    SplitTwoWordLine(Bytes, "level", n);
    LevelOfTwoTokens(LevelLine(n), n);
  }

  lemma LevelIsWord()
    ensures IsWord(Bytes, "level")
  {
  }

  lemma LevelOfTwoTokens(line: string, n: string)
    requires Split(Bytes, line) == ["level", n]
    ensures LevelOfLine(line) == Ok(Some(n))
  {
  }

  /** Python's `levels[i]`: a negative index counts from the end; IndexError outside. */
  function LevelAt(levels: seq<string>, i: int): (r: Option<string>)
    ensures r.Some? <==> -|levels| <= i < |levels|
    ensures 0 <= i < |levels| ==> r == Some(levels[i])
  {
    if 0 <= i < |levels| then Some(levels[i])
    else if -|levels| <= i < 0 then Some(levels[|levels| + i])
    else None
  }

  /** The numeric reading of a store value that the unlock test compares with
      an int: an integer as itself, a flag as 0 or 1 (a Python bool is an int). */
  function NumericValue(v: Value): Option<int> {
    match v
    case Num(n) => Some(n)
    case Flag(b) => Some(if b then 1 else 0)
    case Str(_) => None
  }

  /** The "unlocked" entry after get_level used index `li`: raised to `li` when
      its number is below it. A text compares above every int in Python 2, so
      it is left as it is. */
  function Unlock(v: Value, li: int): (r: Value)
    ensures NumericValue(v).Some? ==>
      NumericValue(r) == Some(if NumericValue(v).value < li then li else NumericValue(v).value)
    ensures r == v || r == Num(li)
    ensures NumericValue(v).None? ==> r == v
  {
    match NumericValue(v)
    case Some(n) => if n < li then Num(li) else v
    case None => v
  }

  /** Unlocking never lowers the recorded progress: the new number is the
      larger of the old one and the index used, so it is at least both. */
  lemma UnlockIsMonotone(v: Value, li: int)
    requires NumericValue(v).Some?
    ensures NumericValue(Unlock(v, li)).Some?
    ensures NumericValue(Unlock(v, li)).value >= NumericValue(v).value
    ensures NumericValue(Unlock(v, li)).value >= li
    ensures Unlock(Unlock(v, li), li) == Unlock(v, li)
  {
  }

  class World {
    var levelIndex: int
    var levels: seq<string>
    const name: string
    const number: int
    const levelCount: int

    /** The World constructor, after its loop has read the level list.
        `worldName` stands for WORLDS[worldIndex], a table of the `locals`
        module that is not part of this model. */
    constructor (worldIndex: int, worldName: string, levelList: seq<string>)
      ensures levelIndex == 0 && levels == levelList && levelCount == |levelList|
      ensures name == worldName && number == worldIndex + 1
    {
      levelIndex := 0;
      levels := levelList;
      name := worldName;
      number := worldIndex + 1;
      levelCount := |levelList|;
    }

    /** The World constructor with the lines of the world file in place of the
        file: null when reading the list raises. */
    static method Open(worldIndex: int, worldName: string, lines: seq<string>) returns (w: World?)
      ensures w == null <==> LevelList(lines).Err?
      ensures w != null ==>
        fresh(w) && w.levelIndex == 0 && w.levels == LevelList(lines).value &&
        w.levelCount == |w.levels| && w.name == worldName && w.number == worldIndex + 1
    {
      var r := ParseLevelList(lines);
      if r.Err? {
        return null;
      }
      w := new World(worldIndex, worldName, r.value);
    }

    /** is_next_level. */
    predicate IsNextLevel()
      reads this
    {
      levelIndex < |levels|
    }

    /** is_next_level tells exactly whether get_level() without an index can
        hand out a level, as long as the cursor has not been set below 0. */
    lemma IsNextLevelGuardsGetLevel()
      requires levelIndex >= 0
      ensures IsNextLevel() <==> LevelAt(levels, levelIndex).Some?
    {
    }

    /** get_level: with an index, the cursor first moves there. The level at
        the cursor is returned (IndexError when there is none, with the cursor
        already moved), the "unlocked" + name entry is raised to the cursor
        (KeyError when the entry is missing), and the cursor then advances by one. */
    method GetLevel(index: Option<int>, vars: Variables) returns (level: Option<string>)
      modifies this, vars
      ensures levels == old(levels)
      ensures var li := if index.Some? then index.value else old(levelIndex);
        var key := "unlocked" + name;
        if LevelAt(levels, li).None? then
          level.None? && levelIndex == li && vars.vdict == old(vars.vdict)
        else if key !in old(vars.vdict) then
          level.None? && levelIndex == li && vars.vdict == old(vars.vdict)
        else
          level == LevelAt(levels, li) && levelIndex == li + 1 &&
          vars.vdict == old(vars.vdict)[key := Unlock(old(vars.vdict)[key], li)]
    {
      if index.Some? {
        levelIndex := index.value;
      }
      var found := LevelAt(levels, levelIndex);
      if found.None? {
        return None;
      }
      var key := "unlocked" + name;
      if key !in vars.vdict {
        return None;
      }
      var unlocked := vars.vdict[key];
      if unlocked.Num? && unlocked.n < levelIndex {
        vars.vdict := vars.vdict[key := Num(levelIndex)];
      } else if unlocked.Flag? && (if unlocked.b then 1 else 0) < levelIndex {
        vars.vdict := vars.vdict[key := Num(levelIndex)];
      }
      levelIndex := levelIndex + 1;
      return found;
    }
  }
}
