/** The level of lib/level.py: its tile list and the active tiles, the flip
    state machine, the ground-check cache, the collision resolver, the edits
    the level editor applies, and the search of the level's objects for the
    item at a point. */
module Levels {
  import opened Wrappers
  import opened Text
  import opened Geometry
  import opened Locals
  import opened Util
  import opened Log
  import opened Items
  import opened Tiles
  import opened Collisions

  /** The dimensions lib/level.py takes from its `locals` module, which is not
      part of this model: the side of a tile in pixels, the screen size, the
      visible and the full grid sizes in tiles, and the length of a flip. */
  datatype Dims = Dims(tileDim: int, screenWidth: int, screenHeight: int,
                       tilesHor: int, tilesVer: int, fullTilesHor: int, fullTilesVer: int,
                       flipFrames: int)

  // ---------------------------------------------------------------- get_tile_type

  /** get_tile_type over the keyword table in its iteration order: the type
      of the first keyword that occurs in the file name of `path`, or
      UnknownTileException when none does. */
  function TileTypeOf(path: string, typeMap: seq<(string, string)>): Result<string> {
    TypeIn(BaseName(path), typeMap)
  }

  /** The type of the first keyword of the table that occurs in `base`. */
  function TypeIn(base: string, typeMap: seq<(string, string)>): Result<string>
    decreases |typeMap|
  {
    if typeMap == [] then Err("UnknownTileException")
    else if IsSubstring(typeMap[0].0, base) then Ok(typeMap[0].1)
    else TypeIn(base, typeMap[1..])
  }

  /** The lookup fails, with UnknownTileException, exactly when no keyword
      of the table is in the file name. */
  lemma TileTypeOfFails(path: string, typeMap: seq<(string, string)>)
    ensures TileTypeOf(path, typeMap).Err? <==> forall i :: 0 <= i < |typeMap| ==> !Names(typeMap[i].0, path)
    ensures TileTypeOf(path, typeMap).Err? ==> TileTypeOf(path, typeMap).error == "UnknownTileException"
  {
    TypeInFails(BaseName(path), typeMap);
  }

  lemma {:induction false} TypeInFails(base: string, typeMap: seq<(string, string)>)
    ensures TypeIn(base, typeMap).Err? <==> forall i :: 0 <= i < |typeMap| ==> !IsSubstring(typeMap[i].0, base)
    ensures TypeIn(base, typeMap).Err? ==> TypeIn(base, typeMap).error == "UnknownTileException"
    decreases |typeMap|
  {
    if typeMap != [] && !IsSubstring(typeMap[0].0, base) {
      var rest := typeMap[1..];
      TypeInFails(base, rest);
      forall i | 0 < i < |typeMap|
        ensures typeMap[i] == rest[i - 1]
      {
      }
    }
  }

  /** A type found is that of the first keyword in the file name. */
  lemma TileTypeOfFirst(path: string, typeMap: seq<(string, string)>)
    ensures TileTypeOf(path, typeMap).Ok? ==>
      exists i :: FirstNamed(typeMap, path, i) && TileTypeOf(path, typeMap).value == typeMap[i].1
  {
    var base := BaseName(path);
    TypeInFirst(base, typeMap);
    if TypeIn(base, typeMap).Ok? {
      var i :| FirstIn(typeMap, base, i) && TypeIn(base, typeMap).value == typeMap[i].1;
      assert FirstNamed(typeMap, path, i);
    }
  }

  lemma {:induction false} TypeInFirst(base: string, typeMap: seq<(string, string)>)
    ensures TypeIn(base, typeMap).Ok? ==>
      exists i :: FirstIn(typeMap, base, i) && TypeIn(base, typeMap).value == typeMap[i].1
    decreases |typeMap|
  {
    if typeMap != [] {
      var rest := typeMap[1..];
      if IsSubstring(typeMap[0].0, base) {
        assert FirstIn(typeMap, base, 0);
      } else if TypeIn(base, rest).Ok? {
        TypeInFirst(base, rest);
        var i :| FirstIn(rest, base, i) && TypeIn(base, rest).value == rest[i].1;
        forall j | 0 < j <= i + 1
          ensures typeMap[j] == rest[j - 1]
        {
        }
        assert FirstIn(typeMap, base, i + 1);
      }
    }
  }

  /** The loop of get_tile_type. */
  method GetTileType(path: string, typeMap: seq<(string, string)>) returns (r: Result<string>)
    ensures r == TileTypeOf(path, typeMap)
  {
    var base := BaseName(path);
    var i := 0;
    while i < |typeMap|
      invariant 0 <= i <= |typeMap|
      invariant TypeIn(base, typeMap) == TypeIn(base, typeMap[i..])
    {
      if IsSubstring(typeMap[i].0, base) {
        return Ok(typeMap[i].1);
      }
      assert typeMap[i..][1..] == typeMap[i + 1..];
      i := i + 1;
    }
    return Err("UnknownTileException");
  }

  /** Entry i is the first of the table whose keyword occurs in `base`. */
  predicate FirstIn(typeMap: seq<(string, string)>, base: string, i: int) {
    0 <= i < |typeMap| && IsSubstring(typeMap[i].0, base) &&
    forall j :: 0 <= j < i ==> !IsSubstring(typeMap[j].0, base)
  }

  /** Entry i is the first of the table whose keyword occurs in the file name of `path`. */
  predicate FirstNamed(typeMap: seq<(string, string)>, path: string, i: int) {
    0 <= i < |typeMap| && Names(typeMap[i].0, path) &&
    forall j :: 0 <= j < i ==> !Names(typeMap[j].0, path)
  }

  /** The keyword occurs in the file name of `path` (Python's `keyword in base`). */
  predicate Names(keyword: string, path: string) {
    IsSubstring(keyword, BaseName(path))
  }

  // ---------------------------------------------------------------- the flip timer

  /** The flip state: whether a flip is under way, and its frame counter. */
  datatype Timer = Timer(flipping: bool, counter: int)

  /** What one update does to the flip state, and whether it reports the end
      of the flip: while flipping, the counter advances, and once it passes
      `flipFrames` the flip ends with the counter back at 0. */
  function Tick(tm: Timer, flipFrames: int): (r: (Timer, bool))
    ensures !tm.flipping ==> r == (tm, false)
    ensures r.1 <==> tm.flipping && tm.counter >= flipFrames
    ensures r.1 ==> r.0 == Timer(false, 0)
    ensures tm.flipping && !r.1 ==> r.0 == Timer(true, tm.counter + 1)
  {
    if !tm.flipping then (tm, false)
    else if tm.counter + 1 > flipFrames then (Timer(false, 0), true)
    else (Timer(true, tm.counter + 1), false)
  }

  /** What `n` updates in a row report. */
  function Reports(tm: Timer, flipFrames: int, n: nat): (r: seq<bool>)
    ensures |r| == n
    decreases n
  {
    if n == 0 then [] else [Tick(tm, flipFrames).1] + Reports(Tick(tm, flipFrames).0, flipFrames, n - 1)
  }

  /** The flip state after `n` updates in a row. */
  function After(tm: Timer, flipFrames: int, n: nat): Timer
    decreases n
  {
    if n == 0 then tm else After(Tick(tm, flipFrames).0, flipFrames, n - 1)
  }

  /** A level that is not flipping stays as it is and reports nothing. */
  lemma {:induction false} IdleReportsNothing(flipFrames: int, counter: int, n: nat)
    ensures Reports(Timer(false, counter), flipFrames, n) == Falses(n)
    ensures After(Timer(false, counter), flipFrames, n) == Timer(false, counter)
  {
    if n > 0 {
      IdleReportsNothing(flipFrames, counter, n - 1);
      assert [false] + Falses(n - 1) == Falses(n);
    }
  }

  /** From counter `c` of a flip, the flip ends on update number
      flipFrames - c + 1, and every update after that reports nothing. */
  lemma {:induction false} FlipRunsOut(flipFrames: int, c: int, m: nat)
    requires 0 <= c <= flipFrames
    ensures Reports(Timer(true, c), flipFrames, flipFrames - c + 1 + m) == Falses(flipFrames - c) + [true] + Falses(m)
    ensures After(Timer(true, c), flipFrames, flipFrames - c + 1 + m) == Timer(false, 0)
    decreases flipFrames - c
  {
    var n := flipFrames - c + 1 + m;
    if c == flipFrames {
      IdleReportsNothing(flipFrames, 0, m);
      assert Reports(Timer(true, c), flipFrames, n) == [true] + Falses(m);
      assert Falses(0) == [];
    } else {
      FlipRunsOut(flipFrames, c + 1, m);
      assert Reports(Timer(true, c), flipFrames, n) == [false] + Reports(Timer(true, c + 1), flipFrames, n - 1);
      assert [false] + Falses(flipFrames - c - 1) == Falses(flipFrames - c);
    }
  }

  /** A flip started from rest reports nothing for flipFrames updates, reports
      its end on the next one, exactly once, and leaves the level at rest. */
  lemma FlipLasts(flipFrames: int, m: nat)
    requires flipFrames >= 0
    ensures Reports(Timer(true, 0), flipFrames, flipFrames + 1 + m) == Falses(flipFrames) + [true] + Falses(m)
    ensures After(Timer(true, 0), flipFrames, flipFrames + 1 + m) == Timer(false, 0)
  {
    FlipRunsOut(flipFrames, 0, m);
  }

  /** The flip length the game ships with, in frames. */
  const FLIP_FRAMES: int := 150

  /** With the shipped flip length a flip ends on its 151st update. */
  lemma ShippedFlipLength()
    ensures Reports(Timer(true, 0), FLIP_FRAMES, 151) == Falses(150) + [true]
    ensures After(Timer(true, 0), FLIP_FRAMES, 151) == Timer(false, 0)
  {
    FlipLasts(FLIP_FRAMES, 0);
    assert Falses(150) + [true] + Falses(0) == Falses(150) + [true];
  }

  // ---------------------------------------------------------------- ground_check

  /** A point off the screen, which always counts as ground. */
  predicate OffScreen(d: Dims, x: int, y: int) {
    x > d.screenWidth || y > d.screenHeight || x < 0 || y < 0
  }

  /** Some active tile's box contains the point. */
  predicate Solid(active: seq<Tile>, x: int, y: int) {
    exists i :: 0 <= i < |active| && active[i].pose.rect.ContainsPoint(x, y)
  }

  /** The answer ground_check would give without its cache. */
  predicate Ground(active: seq<Tile>, d: Dims, x: int, y: int) {
    OffScreen(d, x, y) || Solid(active, x, y)
  }

  type Cache = map<(int, int), bool>

  /** What ground_check answers and the cache it leaves: a cached point is
      answered from the cache; a point off the screen is ground and is not
      cached; any other point is looked up in the active tiles and the
      answer is cached. */
  function GroundAt(cache: Cache, active: seq<Tile>, d: Dims, x: int, y: int): (r: (bool, Cache))
    ensures (x, y) in cache ==> r == (cache[(x, y)], cache)
    ensures (x, y) !in cache && OffScreen(d, x, y) ==> r == (true, cache)
    ensures (x, y) !in cache && !OffScreen(d, x, y) ==> r.1 == cache[(x, y) := r.0]
    ensures (x, y) !in cache ==> r.0 == Ground(active, d, x, y)
  {
    if (x, y) in cache then (cache[(x, y)], cache)
    else if OffScreen(d, x, y) then (true, cache)
    else (Solid(active, x, y), cache[(x, y) := Solid(active, x, y)])
  }

  /** Every cached answer is the answer the active tiles give now. */
  ghost predicate CacheAgrees(cache: Cache, active: seq<Tile>, d: Dims) {
    forall p :: p in cache ==> cache[p] == Ground(active, d, p.0, p.1)
  }

  /** While the cache agrees with the active tiles, ground_check answers as
      if there were no cache, and the cache it leaves still agrees. */
  lemma GroundCheckSound(cache: Cache, active: seq<Tile>, d: Dims, x: int, y: int)
    requires CacheAgrees(cache, active, d)
    ensures GroundAt(cache, active, d, x, y).0 == Ground(active, d, x, y)
    ensures CacheAgrees(GroundAt(cache, active, d, x, y).1, active, d)
  {
    var r := GroundAt(cache, active, d, x, y);
    if (x, y) in cache {
      assert r.0 == cache[(x, y)];
    } else {
      forall p | p in r.1
        ensures r.1[p] == Ground(active, d, p.0, p.1)
      {
        if p != (x, y) {
          assert p in cache;
        }
      }
    }
  }

  /** Asking twice in a row gives the same answer, and the second call leaves
      the cache as the first left it. */
  lemma GroundCheckRepeats(cache: Cache, active: seq<Tile>, d: Dims, x: int, y: int)
    ensures var r := GroundAt(cache, active, d, x, y);
      GroundAt(r.1, active, d, x, y) == r
  {
    var r := GroundAt(cache, active, d, x, y);
    if (x, y) !in cache && OffScreen(d, x, y) {
      assert r == (true, cache);
    }
  }

  /** The cache is kept across tile edits: after a tile under a cached
      point is removed, the cache still answers that the point is solid. */
  lemma StaleAfterRemoval(t: Tile, d: Dims)
    requires t.pose.rect == Rect(0, 0, 1, 1) && d.screenWidth >= 0 && d.screenHeight >= 0
    ensures CacheAgrees(map[(0, 0) := true], [t], d)
    ensures Sweep([t], 0, 0) == ([], [t])
    ensures GroundAt(map[(0, 0) := true], [], d, 0, 0).0
    ensures !Ground([], d, 0, 0)
  {
    assert [t][0] == t;
    assert Solid([t], 0, 0);
  }

  // ---------------------------------------------------------------- remove_tile

  /** Taking out the tile under the cursor of remove_tile's loop. */
  lemma RemoveAtCursor(kept: seq<Tile>, rest: seq<Tile>)
    requires rest != [] && IdsUnique(kept + rest)
    ensures RemoveFirst(kept + rest, rest[0]) == kept + rest[1..]
  {
    var s := kept + rest;
    assert s[|kept|] == rest[0];
    assert forall j :: 0 <= j < |kept| ==> s[j].id != s[|kept|].id;
    RemoveFirstAt(s, |kept|);
    assert s[..|kept|] == kept;
    assert s[|kept| + 1..] == rest[1..];
  }

  /** The loop of remove_tile, run on the active tiles `a0` and the tiles
      `t0`: each active tile at the point is taken out of both lists, the
      tile after it in the active list being stepped over. */
  method SweepOut(a0: seq<Tile>, t0: seq<Tile>, px: int, py: int) returns (active: seq<Tile>, all: seq<Tile>, hit: bool)
    requires IdsUnique(a0)
    ensures active == Sweep(a0, px, py).0 && all == RemoveEach(t0, Sweep(a0, px, py).1)
    ensures hit <==> Sweep(a0, px, py).1 != []
  {
    active, all, hit := a0, t0, false;
    ghost var kept: seq<Tile> := [];
    ghost var gone: seq<Tile> := [];
    ghost var rest := active;
    SweepStarts(a0, t0, px, py);
    var i := 0;
    while i < |active|
      invariant SweepInv(a0, t0, px, py, kept, gone, rest, active, all)
      invariant i == |kept| || (i == |kept| + 1 && rest == [])
      invariant hit == (gone != [])
      decreases |active| - i
    {
      var t := active[i];
      assert t == rest[0];
      if t.pose.rect.ContainsPoint(px, py) {
        if |rest| == 1 {
          SweepHitLast(a0, t0, px, py, kept, gone, rest, active, all);
          kept, gone, rest := kept, gone + [t], [];
        } else {
          SweepHitStep(a0, t0, px, py, kept, gone, rest, active, all);
          kept, gone, rest := kept + [rest[1]], gone + [t], rest[2..];
        }
        active := RemoveFirst(active, t);
        all := RemoveFirst(all, t);
        hit := true;
      } else {
        SweepPassStep(a0, t0, px, py, kept, gone, rest, active, all);
        kept, rest := kept + [t], rest[1..];
      }
      i := i + 1;
    }
    SweepEnds(a0, t0, px, py, kept, gone, rest, active, all);
  }

  /** Where remove_tile's walk stands: the tiles kept and removed so far, and
      the rest of the list, with the lists as the walk has left them. */
  ghost predicate SweepInv(a0: seq<Tile>, t0: seq<Tile>, px: int, py: int,
                           kept: seq<Tile>, gone: seq<Tile>, rest: seq<Tile>, active: seq<Tile>, all: seq<Tile>)
  {
    active == kept + rest && IdsUnique(active) && all == RemoveEach(t0, gone) &&
    Sweep(a0, px, py) == (kept + Sweep(rest, px, py).0, gone + Sweep(rest, px, py).1)
  }

  lemma SweepStarts(a0: seq<Tile>, t0: seq<Tile>, px: int, py: int)
    requires IdsUnique(a0)
    ensures SweepInv(a0, t0, px, py, [], [], a0, a0, t0)
  {
    assert [] + a0 == a0;
    assert [] + Sweep(a0, px, py).0 == Sweep(a0, px, py).0 && [] + Sweep(a0, px, py).1 == Sweep(a0, px, py).1;
  }

  lemma SweepEnds(a0: seq<Tile>, t0: seq<Tile>, px: int, py: int,
                  kept: seq<Tile>, gone: seq<Tile>, rest: seq<Tile>, active: seq<Tile>, all: seq<Tile>)
    requires SweepInv(a0, t0, px, py, kept, gone, rest, active, all) && rest == []
    ensures active == Sweep(a0, px, py).0 && all == RemoveEach(t0, Sweep(a0, px, py).1)
    ensures gone == Sweep(a0, px, py).1
  {
    assert Sweep(rest, px, py) == ([], []);
    assert kept + [] == kept && gone + [] == gone;
  }

  /** The three ways one turn of remove_tile's loop advances the walk: a
      hit with more tiles behind it, a hit on the last tile, and a miss. */
  lemma SweepHitStep(a0: seq<Tile>, t0: seq<Tile>, px: int, py: int,
                     kept: seq<Tile>, gone: seq<Tile>, rest: seq<Tile>, active: seq<Tile>, all: seq<Tile>)
    requires SweepInv(a0, t0, px, py, kept, gone, rest, active, all)
    requires |rest| >= 2 && rest[0].pose.rect.ContainsPoint(px, py)
    ensures SweepInv(a0, t0, px, py, kept + [rest[1]], gone + [rest[0]], rest[2..],
                     RemoveFirst(active, rest[0]), RemoveFirst(all, rest[0]))
  {
    var r := Sweep(rest[2..], px, py);
    SweepUnfoldHit(rest, px, py);
    AppendAssoc(kept, [rest[1]], r.0);
    AppendAssoc(gone, [rest[0]], r.1);
    RemoveAtCursor(kept, rest);
    assert rest[1..] == [rest[1]] + rest[2..];
    AppendAssoc(kept, [rest[1]], rest[2..]);
    RemoveFirstKeepsIds(active, rest[0]);
    RemoveEachSnoc(t0, gone, rest[0]);
  }

  lemma SweepHitLast(a0: seq<Tile>, t0: seq<Tile>, px: int, py: int,
                     kept: seq<Tile>, gone: seq<Tile>, rest: seq<Tile>, active: seq<Tile>, all: seq<Tile>)
    requires SweepInv(a0, t0, px, py, kept, gone, rest, active, all)
    requires |rest| == 1 && rest[0].pose.rect.ContainsPoint(px, py)
    ensures SweepInv(a0, t0, px, py, kept, gone + [rest[0]], [],
                     RemoveFirst(active, rest[0]), RemoveFirst(all, rest[0]))
  {
    assert Sweep(rest, px, py) == ([], [rest[0]]);
    assert Sweep([], px, py) == ([], []);
    assert (gone + [rest[0]]) + [] == gone + [rest[0]];
    RemoveAtCursor(kept, rest);
    assert rest[1..] == [];
    assert kept + [] == kept;
    RemoveFirstKeepsIds(active, rest[0]);
    RemoveEachSnoc(t0, gone, rest[0]);
  }

  lemma SweepPassStep(a0: seq<Tile>, t0: seq<Tile>, px: int, py: int,
                      kept: seq<Tile>, gone: seq<Tile>, rest: seq<Tile>, active: seq<Tile>, all: seq<Tile>)
    requires SweepInv(a0, t0, px, py, kept, gone, rest, active, all)
    requires |rest| >= 1 && !rest[0].pose.rect.ContainsPoint(px, py)
    ensures SweepInv(a0, t0, px, py, kept + [rest[0]], gone, rest[1..], active, all)
  {
    var r := Sweep(rest[1..], px, py);
    SweepUnfoldPass(rest, px, py);
    AppendAssoc(kept, [rest[0]], r.0);
    assert rest == [rest[0]] + rest[1..];
    AppendAssoc(kept, [rest[0]], rest[1..]);
  }

  lemma SweepUnfoldHit(rest: seq<Tile>, px: int, py: int)
    requires |rest| >= 2 && rest[0].pose.rect.ContainsPoint(px, py)
    ensures Sweep(rest, px, py) == ([rest[1]] + Sweep(rest[2..], px, py).0, [rest[0]] + Sweep(rest[2..], px, py).1)
  {
  }

  lemma SweepUnfoldPass(rest: seq<Tile>, px: int, py: int)
    requires |rest| >= 1 && !rest[0].pose.rect.ContainsPoint(px, py)
    ensures Sweep(rest, px, py) == ([rest[0]] + Sweep(rest[1..], px, py).0, Sweep(rest[1..], px, py).1)
  {
  }

  lemma AppendAssoc(a: seq<Tile>, b: seq<Tile>, c: seq<Tile>)
    ensures a + (b + c) == (a + b) + c
  {
  }

  lemma RemoveEachSnoc(s: seq<Tile>, gone: seq<Tile>, t: Tile)
    ensures RemoveEach(s, gone + [t]) == RemoveFirst(RemoveEach(s, gone), t)
  {
    assert (gone + [t])[..|gone|] == gone;
  }

  /** The active tiles remove_tile keeps are still tiles of the level. */
  lemma SweepLeavesKeptIn(s: seq<Tile>, a: seq<Tile>, px: int, py: int)
    requires IdsUnique(a) && forall t :: t in a ==> t in s
    ensures IdsUnique(Sweep(a, px, py).0)
    ensures forall t :: t in Sweep(a, px, py).0 ==> t in RemoveEach(s, Sweep(a, px, py).1)
  {
    SweepKeepsIdsApart(a, px, py);
  }

  // ---------------------------------------------------------------- change

  /** A code `change` acts on. */
  predicate IsEdit(code: string) {
    code == "remove" || IsSubstring(code, "WBS")
  }

  /** The type codes `change` accepts as tile edits: every piece of "WBS",
      the empty code and "WB", "BS", "WBS" included, which add no tile. */
  lemma EditCodes(code: string)
    ensures IsSubstring(code, "WBS") <==> code in {"", "W", "B", "S", "WB", "BS", "WBS"}
  {
    var b := "WBS";
    assert b[1..] == "BS" && b[1..][1..] == "S" && b[1..][1..][1..] == "";
    assert IsSubstring(code, b) <==> code <= "WBS" || code <= "BS" || code <= "S" || code <= "";
    if code <= "WBS" {
      PrefixOfWBS(code);
    } else if code <= "BS" {
      PrefixOfBS(code);
    } else if code <= "S" {
      if |code| == 1 {
        assert code == "S";
      }
    }
  }

  lemma PrefixOfWBS(code: string)
    requires code <= "WBS"
    ensures code in {"", "W", "WB", "WBS"}
  {
    var b := "WBS";
    assert code == b[..|code|];
    if |code| == 1 {
      assert b[..1] == "W";
    } else if |code| == 2 {
      assert b[..2] == "WB";
    } else if |code| == 3 {
      assert b[..3] == b;
    }
  }

  lemma PrefixOfBS(code: string)
    requires code <= "BS"
    ensures code in {"", "B", "BS"}
  {
    var b := "BS";
    assert code == b[..|code|];
    if |code| == 1 {
      assert b[..1] == "B";
    } else if |code| == 2 {
      assert b[..2] == b;
    }
  }

  /** The centre of a visible grid cell, in pixels along one axis. Python 2's
      `/` on ints rounds down, as Dafny's does for a positive divisor. */
  function CellCentre(d: Dims, c: int): (x: int)
    ensures d.tileDim > 0 ==> c * d.tileDim <= x < c * d.tileDim + d.tileDim
  {
    c * d.tileDim + d.tileDim / 2
  }

  /** The text logged for an edit; Python prints ints in decimal. */
  function ChangeMessage(tileChange: string, cx: int, cy: int): string {
    "Made change " + tileChange + " to coords " + IntToString(cx) + ", " + IntToString(cy)
  }

  /** An edit of the level editor: a tile type code or "remove", and the
      grid cell, relative to the visible corner of the level. */
  class Change {
    var tileChange: string
    var cx: int
    var cy: int

    constructor (tileChange: string, cx: int, cy: int)
      ensures this.tileChange == tileChange && this.cx == cx && this.cy == cy
    {
      this.tileChange := tileChange;
      this.cx := cx;
      this.cy := cy;
    }
  }

  /** A one-character code names a tile kind exactly when it is W, B or S. */
  lemma CodeOf(code: char)
    ensures KindOf([code]).Some? <==> code == 'W' || code == 'B' || code == 'S'
  {
    assert [code] == "W" <==> code == 'W';
    assert [code] == "B" <==> code == 'B';
    assert [code] == "S" <==> code == 'S';
  }

  /** The tiles of a row grow by what add_tile makes of its next character. */
  lemma RowNext(place: (TileKind, int, int) -> Pose, id0: nat, t0: seq<Tile>, before: seq<Tile>, line: string, tiley: int, n: nat)
    requires n < |line| && before == t0 + Built(place, id0, RowCells(line, tiley, n))
    ensures var cells := RowCells(line, tiley, n);
      var made := Made(place, id0 + |cells|, [line[n]], n, tiley);
      before + made == t0 + Built(place, id0, RowCells(line, tiley, n + 1)) &&
      |RowCells(line, tiley, n + 1)| == |cells| + |made| &&
      (RowCells(line, tiley, n + 1) != [] <==> cells != [] || made != [])
  {
    var cells := RowCells(line, tiley, n);
    match KindOf([line[n]])
    case None =>
    case Some(k) =>
      RowStep(line, tiley, n, k);
      MadeIsBuilt(place, id0, cells, [line[n]], n, tiley);
      AppendAssoc(t0, Built(place, id0, cells), Made(place, id0 + |cells|, [line[n]], n, tiley));
  }

  /** A row of the tile block adds the tiles of its cells after those
      already read. */
  lemma BlockNext(place: (TileKind, int, int) -> Pose, id0: nat, id1: nat, t0: seq<Tile>, before: seq<Tile>, g: Grid, line: string, tiley: int, full: int)
    requires g.parsing && g.tiley == tiley < full && before == t0 + Built(place, id0, g.cells) && id1 == id0 + |g.cells|
    ensures var row := RowCells(line, tiley, if |line| < full then |line| else if full < 0 then 0 else full);
      var h := GridStep(g, line, full);
      before + Built(place, id1, row) == t0 + Built(place, id0, h.cells) &&
      |h.cells| == |g.cells| + |row| && (h.cells != [] <==> g.cells != [] || row != []) &&
      h.tiley == (if |line| < full then g.tiley else g.tiley + 1) &&
      h.ok == h.parsing == (|line| >= full) && h.used == g.used + 1
  {
    var row := RowCells(line, g.tiley, if |line| < full then |line| else if full < 0 then 0 else full);
    assert GridStep(g, line, full).cells == g.cells + row;
    BuiltAppend(place, id0, g.cells, row);
    AppendAssoc(t0, Built(place, id0, g.cells), Built(place, id0 + |g.cells|, row));
  }

  lemma RowStep(line: string, tiley: int, n: nat, k: TileKind)
    requires n < |line| && KindOf([line[n]]) == Some(k)
    ensures RowCells(line, tiley, n + 1) == RowCells(line, tiley, n) + [Cell(k, n, tiley)]
  {
  }

  /** No object occurs twice. */
  ghost predicate Distinct<T>(s: seq<T>) {
    forall i, j :: 0 <= i < j < |s| ==> s[i] != s[j]
  }

  lemma DistinctWithout<T>(s: seq<T>, k: nat)
    requires k < |s|
    ensures Distinct(s) ==> Distinct(s[..k] + s[k + 1..])
    ensures forall x :: x in s[..k] + s[k + 1..] ==> x in s
  {
    var r := s[..k] + s[k + 1..];
    assert forall i :: 0 <= i < |r| ==> r[i] == if i < k then s[i] else s[i + 1];
  }

  /** An item whose box contains the point and that is a lever. */
  predicate LeverAt(o: Item, x: int, y: int)
    reads o
  {
    o.rect.ContainsPoint(x, y) && o.itemclass == "lever"
  }

  /** Between the two states, the item kept its position, box, trigger,
      limit and whether it can be picked up. */
  twostate predicate Kept(o: Item)
    reads o
  {
    o.trigger == old(o.trigger) && o.x == old(o.x) && o.y == old(o.y) && o.rect == old(o.rect) &&
    o.maxActivations == old(o.maxActivations) && o.pickable == old(o.pickable)
  }

  /** Between the two states, the item was activated once; reaching its
      limit gives it the broken look. */
  twostate predicate Activated(o: Item)
    reads o
  {
    o.activatedTimes == old(o.activatedTimes) + 1 &&
    o.currentAnimation == if o.activatedTimes == o.maxActivations then "broken" else old(o.currentAnimation)
  }

  /** Between the two states, the item was not activated. */
  twostate predicate Untouched(o: Item)
    reads o
  {
    o.activatedTimes == old(o.activatedTimes) && o.currentAnimation == old(o.currentAnimation)
  }

  /** What trigger does to one item: a lever at (x, y) that is tried is
      activated, and hands out its trigger exactly when `fired`; any other
      item is left as it was. */
  twostate predicate Outcome(o: Item, x: int, y: int, tried: bool, fired: bool)
    reads o
  {
    Kept(o) &&
    if tried && LeverAt(o, x, y) then Activated(o) && Fires(o.activatedTimes, o.maxActivations) == fired
    else Untouched(o)
  }

  /** The items before `n` were tried and did not fire, item k was tried and
      fired, and the rest were left as they were. */
  twostate predicate Tried(objs: seq<Item>, x: int, y: int, n: int, k: int)
    reads objs
  {
    forall i :: 0 <= i < |objs| ==> Outcome(objs[i], x, y, i < n || i == k, i == k)
  }



  /** An item whose box contains the point and that can be picked up. */
  predicate PickableAt(o: Item, x: int, y: int)
    reads o
  {
    o.rect.ContainsPoint(x, y) && o.pickable
  }

  class Level {
    const dims: Dims
    /** The constructors of lib/tile.py and lib/spikes.py: the pose of a new
        tile of the kind at the grid position. */
    const place: (TileKind, int, int) -> Pose
    /** A tile's flip: the pose it moves to when the level turns that way. */
    const turn: int -> Pose -> Pose
    /** A tile's per-frame update while the level flips. */
    const tick: Pose -> Pose

    var tiles: seq<Tile>
    var activeTiles: seq<Tile>
    var objects: seq<Item>
    var flipping: bool
    var flipcounter: int
    var orientation: int
    var cachedGroundCheck: Cache
    var edited: bool
    /** Whether the rendered picture of the level is kept (self.image is not None). */
    var hasImage: bool
    /** The identity the next tile made gets. */
    var nextId: nat

    /** The tiles are distinct objects, the active tiles are tiles of the
        level, every identity handed out is below `nextId`, and the flip
        counter is 0 whenever the level is at rest. */
    ghost predicate Valid()
      reads this
    {
      IdsUnique(tiles) && IdsUnique(activeTiles) &&
      (forall t :: t in activeTiles ==> t in tiles) &&
      (forall t :: t in tiles ==> t.id < nextId) &&
      flipcounter >= 0 && (!flipping ==> flipcounter == 0)
    }

    /** The objects are distinct, and every lever has a trigger, as every
        lever the level file places is made with one. */
    ghost predicate ObjectsValid()
      reads this, objects
    {
      Distinct(objects) &&
      forall o :: o in objects ==> o.itemclass == "lever" ==> o.trigger != null
    }

    /** The fields that adding tiles leaves alone. */
    ghost function Others(): (seq<Tile>, seq<Item>, bool, int, int, Cache, bool)
      reads this
    {
      (activeTiles, objects, flipping, flipcounter, orientation, cachedGroundCheck, hasImage)
    }

    /** The fields Level.__init__ sets before it reads the level file. */
    constructor (dims: Dims, place: (TileKind, int, int) -> Pose, turn: int -> Pose -> Pose, tick: Pose -> Pose)
      ensures Valid()
      ensures this.dims == dims && this.place == place && this.turn == turn && this.tick == tick
      ensures tiles == [] && activeTiles == [] && objects == []
      ensures !flipping && flipcounter == 0 && orientation == 0
      ensures cachedGroundCheck == map[] && !edited && !hasImage
    {
      this.dims := dims;
      this.place := place;
      this.turn := turn;
      this.tick := tick;
      tiles := [];
      activeTiles := [];
      objects := [];
      flipping := false;
      flipcounter := 0;
      orientation := 0;
      cachedGroundCheck := map[];
      edited := false;
      hasImage := false;
      nextId := 0;
    }

    // -------------------------------------------------------------- tiles

    /** add_tile: a "W", "B" or "S" code appends one new tile at (cx, cy),
        any other code nothing; either way the level is marked edited. */
    method AddTile(code: string, cx: int, cy: int)
      requires Valid()
      modifies this
      ensures Valid()
      ensures tiles == old(tiles) + Made(place, old(nextId), code, cx, cy)
      ensures nextId == old(nextId) + |Made(place, old(nextId), code, cx, cy)|
      ensures edited
      ensures Others() == old(Others())
    {
      var made := Made(place, nextId, code, cx, cy);
      if made != [] {
        tiles := tiles + made;
        nextId := nextId + 1;
        IdsUniqueSnoc(old(tiles), made[0]);
        assert tiles == old(tiles) + [made[0]];
      }
      edited := true;
    }

    /** find_tile: the first tile at grid position (tx, ty), in list order. */
    method FindTile(tx: int, ty: int) returns (r: Option<Tile>)
      ensures r.None? <==> !Occupied(tiles, tx, ty)
      ensures r.Some? ==> FirstAt(tiles, tx, ty).Some? && r.value == tiles[FirstAt(tiles, tx, ty).value]
    {
      var i := 0;
      while i < |tiles|
        invariant 0 <= i <= |tiles|
        invariant forall j :: 0 <= j < i ==> !(tiles[j].pose.tilex == tx && tiles[j].pose.tiley == ty)
      {
        if tiles[i].pose.tilex == tx && tiles[i].pose.tiley == ty {
          assert Occupied(tiles, tx, ty);
          return Some(tiles[i]);
        }
        i := i + 1;
      }
      return None;
    }

    /** reset_active_tiles: the active tiles become the tiles whose screen
        position is positive on both axes, in their order. */
    method ResetActiveTiles()
      requires Valid()
      modifies this
      ensures Valid()
      ensures activeTiles == Positives(tiles)
      ensures tiles == old(tiles) && objects == old(objects) && nextId == old(nextId) && edited == old(edited)
      ensures flipping == old(flipping) && flipcounter == old(flipcounter) && orientation == old(orientation)
      ensures cachedGroundCheck == old(cachedGroundCheck) && hasImage == old(hasImage)
    {
      var active := [];
      var i := 0;
      while i < |tiles|
        invariant 0 <= i <= |tiles|
        invariant active == Positives(tiles[..i])
      {
        assert tiles[..i + 1][..i] == tiles[..i];
        if tiles[i].pose.x > 0 && tiles[i].pose.y > 0 {
          active := active + [tiles[i]];
        }
        i := i + 1;
      }
      assert tiles[..i] == tiles;
      PositivesKeepIds(tiles);
      activeTiles := active;
    }

    // -------------------------------------------------------------- flip and update

    /** flip: ignored while a flip is under way. Otherwise the ground-check
        cache is emptied, the flip starts, the orientation moves one step the
        given way (without wrapping round), and every tile starts its flip. */
    method Flip(direction: int)
      requires Valid()
      modifies this
      ensures Valid()
      ensures old(flipping) ==>
        tiles == old(tiles) && activeTiles == old(activeTiles) && orientation == old(orientation) &&
        cachedGroundCheck == old(cachedGroundCheck) && flipping
      ensures !old(flipping) ==>
        flipping && cachedGroundCheck == map[] &&
        orientation == old(orientation) + (if direction == CLOCKWISE then 1 else if direction == COUNTER_CLOCKWISE then -1 else 0) &&
        tiles == MapPoses(old(tiles), turn(direction)) && activeTiles == MapPoses(old(activeTiles), turn(direction))
      ensures flipcounter == old(flipcounter) && objects == old(objects) && nextId == old(nextId)
      ensures edited == old(edited) && hasImage == old(hasImage)
    {
      if flipping {
        return;
      }
      cachedGroundCheck := map[];
      flipping := true;
      if direction == CLOCKWISE {
        orientation := orientation + 1;
      }
      if direction == COUNTER_CLOCKWISE {
        orientation := orientation - 1;
      }
      UpdateAll(turn(direction));
    }

    /** A loop over the tiles calling each tile's flip or update. The active
        tiles are the same objects, so they change with them. */
    method UpdateAll(f: Pose -> Pose)
      requires Valid()
      modifies this
      ensures Valid()
      ensures tiles == MapPoses(old(tiles), f) && activeTiles == MapPoses(old(activeTiles), f)
      ensures objects == old(objects) && nextId == old(nextId) && edited == old(edited)
      ensures flipping == old(flipping) && flipcounter == old(flipcounter) && orientation == old(orientation)
      ensures cachedGroundCheck == old(cachedGroundCheck) && hasImage == old(hasImage)
    {
      MapPosesKeepsSublist(activeTiles, tiles, f);
      MapPosesKeepsBound(tiles, f, nextId);
      tiles := MapPoses(tiles, f);
      activeTiles := MapPoses(activeTiles, f);
    }

    /** update: while flipping, the counter advances; once it passes the
        length of a flip, the flip ends, the active tiles are chosen anew, the
        picture is dropped and the end is reported (TRIGGER_FLIPPED). Either
        way every tile takes its per-frame update. At rest nothing changes. */
    method Update() returns (flipped: bool)
      requires Valid()
      modifies this
      ensures Valid()
      ensures (Timer(flipping, flipcounter), flipped) == Tick(Timer(old(flipping), old(flipcounter)), dims.flipFrames)
      ensures !old(flipping) ==> tiles == old(tiles) && activeTiles == old(activeTiles) && hasImage == old(hasImage)
      ensures old(flipping) ==>
        tiles == MapPoses(old(tiles), tick) &&
        activeTiles == MapPoses(if flipped then Positives(old(tiles)) else old(activeTiles), tick) &&
        hasImage == (old(hasImage) && !flipped)
      ensures objects == old(objects) && nextId == old(nextId) && edited == old(edited)
      ensures orientation == old(orientation) && cachedGroundCheck == old(cachedGroundCheck)
    {
      flipped := false;
      if flipping {
        flipcounter := flipcounter + 1;
        if flipcounter > dims.flipFrames {
          flipcounter := 0;
          flipping := false;
          ResetActiveTiles();
          flipped := true;
          hasImage := false;
        }
        UpdateAll(tick);
      }
    }

    // -------------------------------------------------------------- queries

    /** ground_check: whether the point is solid ground, through the cache. */
    method GroundCheck(x: int, y: int) returns (b: bool)
      modifies this
      ensures (b, cachedGroundCheck) == GroundAt(old(cachedGroundCheck), activeTiles, dims, x, y)
      ensures tiles == old(tiles) && activeTiles == old(activeTiles) && objects == old(objects)
      ensures nextId == old(nextId) && edited == old(edited) && hasImage == old(hasImage)
      ensures flipping == old(flipping) && flipcounter == old(flipcounter) && orientation == old(orientation)
    {
      if (x, y) in cachedGroundCheck {
        return cachedGroundCheck[(x, y)];
      }
      if x > dims.screenWidth || y > dims.screenHeight || x < 0 || y < 0 {
        return true;
      }
      var i := 0;
      while i < |activeTiles|
        invariant 0 <= i <= |activeTiles|
        invariant forall j :: 0 <= j < i ==> !activeTiles[j].pose.rect.ContainsPoint(x, y)
      {
        if activeTiles[i].pose.rect.ContainsPoint(x, y) {
          cachedGroundCheck := cachedGroundCheck[(x, y) := true];
          return true;
        }
        i := i + 1;
      }
      cachedGroundCheck := cachedGroundCheck[(x, y) := false];
      return false;
    }
  
    /** collide: what the active tiles report to the box `rect` moving by
        (dx, dy); the box is grown by one pixel in each size first. */
    method Collide(rect: Rect, dy: int, dx: int) returns (c: Collision)
      ensures c == Resolve(activeTiles, Grown(rect), dy, dx, tiles)
    {
      c := NoCollision;
      var rcopy := Rect(rect.left, rect.top, rect.width + 1, rect.height + 1);
      var i := 0;
      while i < |activeTiles|
        invariant 0 <= i <= |activeTiles|
        invariant c == Resolve(activeTiles[..i], rcopy, dy, dx, tiles)
      {
        assert activeTiles[..i + 1][..i] == activeTiles[..i];
        c := CollideWith(c, activeTiles[i], rcopy, dy, dx);
        i := i + 1;
      }
      assert activeTiles[..i] == activeTiles;
    }

    /** The sides of tile `t` the box touches, each kept only when find_tile
        finds no tile next to it on that side. */
    method ExposedFaces(t: Tile, rcopy: Rect) returns (colTop: bool, colBottom: bool, colLeft: bool, colRight: bool)
      ensures FacesOf(t, rcopy, tiles) == Faces(colTop, colBottom, colLeft, colRight)
    {
      var tx, ty := t.pose.tilex, t.pose.tiley;
      var edges := GetEdges(t.pose.rect);
      colTop := Uncovered(rcopy.Collides(edges.down), tx, ty + 1);
      colBottom := Uncovered(rcopy.Collides(edges.up), tx, ty - 1);
      colLeft := Uncovered(rcopy.Collides(edges.right), tx + 1, ty);
      colRight := Uncovered(rcopy.Collides(edges.left), tx - 1, ty);
    }

    /** `touches and not self.find_tile(nx, ny)`: find_tile is only asked
        when the side is touched. */
    method Uncovered(touches: bool, nx: int, ny: int) returns (b: bool)
      ensures b == (touches && !Occupied(tiles, nx, ny))
    {
      b := false;
      if touches {
        var found := FindTile(nx, ny);
        b := found.None?;
      }
    }

    /** One turn of the loop of collide, for tile `t`. */
    method CollideWith(c: Collision, t: Tile, rcopy: Rect, dy: int, dx: int) returns (r: Collision)
      ensures r == Apply(c, t, rcopy, dy, dx, tiles)
    {
      r := c;
      if !t.pose.aligned {
        return;
      }
      var overlap := t.pose.rect.Clip(rcopy);
      if !overlap.NonEmpty() {
        return;
      }
      var colTop, colBottom, colLeft, colRight := ExposedFaces(t, rcopy);
      var colHside := colTop || colBottom;
      var colVside := colLeft || colRight;
      var canHcol := !colHside || dy == 0 || overlap.width < overlap.height;
      if dx > 0 && colRight && canHcol {
        r := r.(right := Some(t.pose.rect.left));
      } else if dx < 0 && colLeft && canHcol {
        r := r.(left := Some(t.pose.rect.Right()));
      }
      var canVcol := !colVside || dx == 0 || overlap.width >= overlap.height;
      if dy >= 0 && colBottom && canVcol {
        r := r.(down := Some(t.pose.rect.top));
        if t.kind == Spikes {
          r := r.(damage := 5);
        } else {
          r := r.(damage := 0);
        }
      } else if dy < 0 && colTop && canVcol {
        r := r.(up := Some(t.pose.rect.Bottom()));
      }
    }

    // -------------------------------------------------------------- edits

    /** remove_tile: the active tiles whose box contains the centre of the
        visible cell (cx, cy) are taken out of both lists, walking the active
        list while removing from it, so the tile after each removed one is
        stepped over. The level is marked edited when a tile goes. */
    method RemoveTile(cx: int, cy: int)
      requires Valid()
      modifies this
      ensures Valid()
      ensures var sw := Sweep(old(activeTiles), CellCentre(dims, cx), CellCentre(dims, cy));
        activeTiles == sw.0 && tiles == RemoveEach(old(tiles), sw.1) && edited == (old(edited) || sw.1 != [])
      ensures objects == old(objects) && nextId == old(nextId) && hasImage == old(hasImage)
      ensures flipping == old(flipping) && flipcounter == old(flipcounter) && orientation == old(orientation)
      ensures cachedGroundCheck == old(cachedGroundCheck)
    {
      var px, py := CellCentre(dims, cx), CellCentre(dims, cy);
      var active, all, hit := SweepOut(activeTiles, tiles, px, py);
      SweepLeavesKeptIn(tiles, activeTiles, px, py);
      RemoveEachKeepsIds(tiles, Sweep(activeTiles, px, py).1);
      activeTiles, tiles := active, all;
      if hit {
        edited := true;
      }
    }
  
    /** change: nothing for no change. Otherwise the edit is logged first
        (and the edit goes no further when logging raises). "remove" takes
        out the tiles at the visible cell. A code that occurs in "WBS" takes
        them out too, moves the change's cell from visible to full-grid
        coordinates, adds the tile there, and chooses the active tiles anew.
        Any other code changes no tile. */
    method Change(ch: Change?, vars: Variables) returns (ok: bool)
      requires Valid()
      modifies this, ch, vars
      ensures Valid()
      ensures ch == null ==>
        ok && vars.vdict == old(vars.vdict) &&
        tiles == old(tiles) && activeTiles == old(activeTiles) && edited == old(edited) && nextId == old(nextId)
      ensures ch != null ==>
        ch.tileChange == old(ch.tileChange) &&
        Logged(vars.vdict, ok) == LogStep(old(vars.vdict), ChangeMessage(old(ch.tileChange), old(ch.cx), old(ch.cy)))
      ensures ch != null && !(ok && IsEdit(ch.tileChange)) ==>
        tiles == old(tiles) && activeTiles == old(activeTiles) && edited == old(edited) && nextId == old(nextId) &&
        ch.cx == old(ch.cx) && ch.cy == old(ch.cy)
      ensures ch != null && ok && ch.tileChange == "remove" ==>
        var sw := Sweep(old(activeTiles), CellCentre(dims, old(ch.cx)), CellCentre(dims, old(ch.cy)));
        activeTiles == sw.0 && tiles == RemoveEach(old(tiles), sw.1) && edited == (old(edited) || sw.1 != []) &&
        nextId == old(nextId) && ch.cx == old(ch.cx) && ch.cy == old(ch.cy)
      ensures ch != null && ok && ch.tileChange != "remove" && IsSubstring(ch.tileChange, "WBS") ==>
        var sw := Sweep(old(activeTiles), CellCentre(dims, old(ch.cx)), CellCentre(dims, old(ch.cy)));
        ch.cx == old(ch.cx) + dims.fullTilesHor - dims.tilesHor && ch.cy == old(ch.cy) + dims.fullTilesVer - dims.tilesVer &&
        tiles == RemoveEach(old(tiles), sw.1) + Made(place, old(nextId), ch.tileChange, ch.cx, ch.cy) &&
        nextId == old(nextId) + |Made(place, old(nextId), ch.tileChange, ch.cx, ch.cy)| &&
        activeTiles == Positives(tiles) && edited
      ensures objects == old(objects) && hasImage == old(hasImage) && cachedGroundCheck == old(cachedGroundCheck)
      ensures flipping == old(flipping) && flipcounter == old(flipcounter) && orientation == old(orientation)
    {
      if ch == null {
        return true;
      }
      ok := LogMessage(vars, ChangeMessage(ch.tileChange, ch.cx, ch.cy));
      if !ok {
        return;
      }
      if ch.tileChange == "remove" {
        RemoveTile(ch.cx, ch.cy);
      } else if IsSubstring(ch.tileChange, "WBS") {
        RemoveTile(ch.cx, ch.cy);
        ch.cx, ch.cy := ch.cx + dims.fullTilesHor - dims.tilesHor, ch.cy + dims.fullTilesVer - dims.tilesVer;
        AddTile(ch.tileChange, ch.cx, ch.cy);
        ResetActiveTiles();
      }
    }

    // -------------------------------------------------------------- the tile block

    /** The test in a tile row: a "W", "B" or "S" character is added as a
        tile at (tilex, tiley); any other character is passed over. */
    method AddCode(code: char, tilex: int, tiley: int)
      requires Valid()
      modifies this
      ensures Valid()
      ensures tiles == old(tiles) + Made(place, old(nextId), [code], tilex, tiley)
      ensures nextId == old(nextId) + |Made(place, old(nextId), [code], tilex, tiley)|
      ensures edited == (old(edited) || Made(place, old(nextId), [code], tilex, tiley) != [])
      ensures Others() == old(Others())
    {
      CodeOf(code);
      if code == 'W' || code == 'B' || code == 'S' {
        AddTile([code], tilex, tiley);
      }
    }

    /** Character `tilex` of a row, added after the tiles of the characters
        before it. */
    method AddRowCode(line: string, tilex: nat, tiley: int, ghost t0: seq<Tile>, ghost id0: nat, ghost e0: bool)
      requires Valid() && tilex < |line|
      requires tiles == t0 + Built(place, id0, RowCells(line, tiley, tilex))
      requires nextId == id0 + |RowCells(line, tiley, tilex)|
      requires edited == (e0 || RowCells(line, tiley, tilex) != [])
      modifies this
      ensures Valid()
      ensures tiles == t0 + Built(place, id0, RowCells(line, tiley, tilex + 1))
      ensures nextId == id0 + |RowCells(line, tiley, tilex + 1)|
      ensures edited == (e0 || RowCells(line, tiley, tilex + 1) != [])
      ensures Others() == old(Others())
    {
      ghost var before := tiles;
      AddCode(line[tilex], tilex, tiley);
      RowNext(place, id0, t0, before, line, tiley, tilex);
    }

    /** One row of a tile block at height `tiley`: each "W", "B" or "S" among
        its first fullTilesVer characters becomes a tile, in order. A shorter
        row raises IndexError at its end, after the tiles before it are added. */
    method AddTileRow(line: string, tiley: int) returns (ok: bool)
      requires Valid()
      modifies this
      ensures Valid()
      ensures var full := dims.fullTilesVer;
        var cells := RowCells(line, tiley, if |line| < full then |line| else if full < 0 then 0 else full);
        ok == (|line| >= full) &&
        tiles == old(tiles) + Built(place, old(nextId), cells) && nextId == old(nextId) + |cells| &&
        edited == (old(edited) || cells != [])
      ensures Others() == old(Others())
    {
      ghost var t0, id0 := tiles, nextId;
      ghost var cells: seq<Cell> := [];
      var tilex := 0;
      while tilex < dims.fullTilesVer
        invariant 0 <= tilex <= |line|
        invariant tilex == 0 || tilex <= dims.fullTilesVer
        invariant cells == RowCells(line, tiley, tilex)
        invariant Valid()
        invariant tiles == t0 + Built(place, id0, cells) && nextId == id0 + |cells|
        invariant edited == (old(edited) || cells != [])
        invariant Others() == old(Others())
      {
        if tilex >= |line| {
          assert tilex == |line| < dims.fullTilesVer;
          return false;
        }
        AddRowCode(line, tilex, tiley, t0, id0, old(edited));
        cells := RowCells(line, tiley, tilex + 1);
        tilex := tilex + 1;
      }
      assert tilex == if dims.fullTilesVer < 0 then 0 else dims.fullTilesVer;
      return true;
    }

    /** One line of the tile block while it is read: a row while the row
        counter is below fullTilesVer, and otherwise the line that ends the
        block. */
    method ReadTileLine(line: string, tiley: int, ghost g: Grid, ghost t0: seq<Tile>, ghost id0: nat, ghost e0: bool)
      returns (tiley': int, ok: bool, parsing: bool)
      requires Valid() && g.parsing && g.tiley == tiley
      requires tiles == t0 + Built(place, id0, g.cells) && nextId == id0 + |g.cells|
      requires edited == (e0 || g.cells != [])
      modifies this
      ensures Valid()
      ensures var h := GridStep(g, line, dims.fullTilesVer);
        tiley' == h.tiley && ok == h.ok && parsing == h.parsing &&
        tiles == t0 + Built(place, id0, h.cells) && nextId == id0 + |h.cells| &&
        edited == (e0 || h.cells != [])
      ensures Others() == old(Others())
    {
      var full := dims.fullTilesVer;
      tiley', ok, parsing := tiley, true, true;
      if tiley < full {
        BlockNext(place, id0, nextId, t0, tiles, g, line, tiley, full);
        var rowOk := AddTileRow(line, tiley);
        if !rowOk {
          ok, parsing := false, false;
        } else {
          tiley' := tiley + 1;
        }
      } else {
        parsing := false;
      }
    }

    /** The tile block of a level file, from the line after its "tiles"
        header on, with the row counter at `tiley0`: the lines are read as
        rows until fullTilesVer rows have been read, when one more line ends
        the block, or until a row raises. The results are the number of lines
        the block took, the row counter, whether it ended without an error,
        and whether it was still being read when the lines ran out. */
    method ReadTileBlock(lines: seq<string>, tiley0: int) returns (used: nat, tiley: int, ok: bool, parsing: bool)
      requires Valid()
      modifies this
      ensures Valid()
      ensures var g := GridOf(lines, tiley0, dims.fullTilesVer);
        used == g.used && tiley == g.tiley && ok == g.ok && parsing == g.parsing &&
        tiles == old(tiles) + Built(place, old(nextId), g.cells) && nextId == old(nextId) + |g.cells| &&
        edited == (old(edited) || g.cells != [])
      ensures Others() == old(Others())
    {
      var full := dims.fullTilesVer;
      ghost var t0, id0 := tiles, nextId;
      tiley, ok, parsing := tiley0, true, true;
      ghost var g := GridUpTo(lines, 0, tiley0, full);
      var i := 0;
      while i < |lines| && parsing
        invariant 0 <= i <= |lines|
        invariant g == GridUpTo(lines, i, tiley0, full)
        invariant g.tiley == tiley && g.ok == ok && g.parsing == parsing && g.used == i
        invariant Valid()
        invariant tiles == t0 + Built(place, id0, g.cells) && nextId == id0 + |g.cells|
        invariant edited == (old(edited) || g.cells != [])
        invariant Others() == old(Others())
      {
        tiley, ok, parsing := ReadTileLine(lines[i], tiley, g, t0, id0, old(edited));
        assert GridUpTo(lines, i + 1, tiley0, full) == GridStep(g, lines[i], full);
        g := GridStep(g, lines[i], full);
        i := i + 1;
      }
      if !parsing {
        GridStopped(lines, tiley0, full, i);
      } else {
        assert g == GridOf(lines, tiley0, full);
      }
      used := i;
    }

    // -------------------------------------------------------------- objects

    /** pick_up: the first object at the point that can be picked up is taken
        out of the level and returned (list.remove takes out its first
        occurrence, which is this one); null when there is none. */
    method PickUp(x: int, y: int) returns (o: Item?)
      modifies this
      ensures o == null ==> objects == old(objects) && forall i :: 0 <= i < |objects| ==> !PickableAt(objects[i], x, y)
      ensures o != null ==>
        exists i :: 0 <= i < |old(objects)| && old(objects)[i] == o && PickableAt(o, x, y) &&
          (forall j :: 0 <= j < i ==> !PickableAt(old(objects)[j], x, y)) &&
          objects == old(objects)[..i] + old(objects)[i + 1..]
      ensures old(ObjectsValid()) ==> ObjectsValid()
      ensures tiles == old(tiles) && activeTiles == old(activeTiles) && nextId == old(nextId) && edited == old(edited)
      ensures flipping == old(flipping) && flipcounter == old(flipcounter) && orientation == old(orientation)
      ensures cachedGroundCheck == old(cachedGroundCheck) && hasImage == old(hasImage)
    {
      var i := 0;
      while i < |objects|
        invariant 0 <= i <= |objects|
        invariant forall j :: 0 <= j < i ==> !PickableAt(objects[j], x, y)
      {
        var item := objects[i];
        if item.rect.ContainsPoint(x, y) {
          if item.pickable {
            DistinctWithout(objects, i);
            objects := objects[..i] + objects[i + 1..];
            return item;
          }
        }
        i := i + 1;
      }
      return null;
    }

    /** One object tried by trigger: a lever at the point is activated. */
    static method Poke(o: Item, x: int, y: int) returns (trigg: Trigger?)
      requires o.itemclass == "lever" ==> o.trigger != null
      modifies o, o.trigger
      ensures Outcome(o, x, y, true, trigg != null)
      ensures trigg != null ==> LeverAt(o, x, y) && trigg == o.trigger && trigg.x == o.x && trigg.y == o.y
      ensures trigg == null && o.trigger != null ==> unchanged(o.trigger)
    {
      trigg := null;
      if o.rect.ContainsPoint(x, y) {
        if o.itemclass == "lever" {
          trigg := o.Activate();
        }
      }
    }

    /** trigger: each lever at the point is activated in turn, until one
        hands out its trigger, which is returned; null when none does. The
        items are tried in list order. Only the trigger handed out moves:
        every other trigger keeps its position. */
    method Trigger(x: int, y: int) returns (t: Trigger?)
      requires ObjectsValid()
      modifies objects, set o | o in objects && o.trigger != null :: o.trigger
      ensures ObjectsValid()
      ensures forall o :: o in objects ==> o.trigger == old(o.trigger)
      ensures forall o :: o in objects && o.trigger != null && o.trigger != t ==> unchanged(o.trigger)
      ensures t == null ==> Tried(objects, x, y, |objects|, |objects|)
      ensures t != null ==>
        exists k :: 0 <= k < |objects| && Tried(objects, x, y, k, k) &&
          LeverAt(objects[k], x, y) && t == objects[k].trigger && t.x == objects[k].x && t.y == objects[k].y
    {
      var i := 0;
      while i < |objects|
        invariant 0 <= i <= |objects|
        invariant Tried(objects, x, y, i, |objects|)
        invariant ObjectsValid()
        invariant forall o :: o in objects && o.trigger != null ==> unchanged(o.trigger)
      {
        label before:
        var trigg := Poke(objects[i], x, y);
        assert forall j :: 0 <= j < |objects| && j != i ==> unchanged@before(objects[j]);
        if trigg != null {
          assert Tried(objects, x, y, i, i);
          return trigg;
        }
        i := i + 1;
      }
      return null;
    }
  }
}
