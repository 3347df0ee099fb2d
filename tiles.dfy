/** The tiles of a level (lib/level.py) and the list operations the level
    performs on them. A tile's own behaviour lives in lib/tile.py and
    lib/spikes.py, which are not part of this model: a tile is a value made of
    an identity, its kind, and the `Pose` that its constructor, its flip and
    its per-frame update compute. */
module Tiles {
  import opened Wrappers
  import opened Geometry

  /** The three kinds of tile a level file can hold: "W" walls, "B" bars and
      "S" spikes (the Spikes class, whose itemclass is "spikes"). */
  datatype TileKind = Wall | Bars | Spikes

  /** The parts of a tile the level reads: its grid position, its screen
      position, its box, and whether it has finished its flip animation. */
  datatype Pose = Pose(tilex: int, tiley: int, x: int, y: int, rect: Rect, aligned: bool)

  /** A tile. `id` stands for the identity of the Python object: the level
      hands out a new one per tile, so list.remove, which compares tiles by
      identity, compares them by `id` here. */
  datatype Tile = Tile(id: nat, kind: TileKind, pose: Pose)

  /** The tile type codes add_tile understands. */
  function KindOf(code: string): (k: Option<TileKind>)
    ensures k.Some? <==> code in {"W", "B", "S"}
    ensures k == Some(Spikes) <==> code == "S"
  {
    if code == "W" then Some(Wall)
    else if code == "B" then Some(Bars)
    else if code == "S" then Some(Spikes)
    else None
  }

  /** No two tiles of the list are the same object. */
  predicate IdsUnique(s: seq<Tile>) {
    forall i, j :: 0 <= i < |s| && 0 <= j < |s| && s[i].id == s[j].id ==> i == j
  }

  lemma IdsUniqueTail(s: seq<Tile>)
    requires s != [] && IdsUnique(s)
    ensures IdsUnique(s[1..]) && forall t :: t in s[1..] ==> t.id != s[0].id
  {
    forall t | t in s[1..]
      ensures t.id != s[0].id
    {
      var k :| 0 <= k < |s[1..]| && s[1..][k] == t;
      assert s[k + 1] == t;
    }
  }

  lemma IdsUniqueCons(x: Tile, s: seq<Tile>)
    requires IdsUnique(s) && forall t :: t in s ==> t.id != x.id
    ensures IdsUnique([x] + s)
  {
    var r := [x] + s;
    forall k | 0 < k < |r|
      ensures r[k] == s[k - 1] && r[k].id != x.id
    {
      assert s[k - 1] in s;
    }
  }

  lemma IdsUniqueSnoc(s: seq<Tile>, x: Tile)
    requires IdsUnique(s) && forall t :: t in s ==> t.id != x.id
    ensures IdsUnique(s + [x])
  {
    var r := s + [x];
    forall i, j | 0 <= i < |r| && 0 <= j < |r| && r[i].id == r[j].id
      ensures i == j
    {
      if i < |s| && j < |s| {
        assert r[i] == s[i] && r[j] == s[j];
      }
    }
  }

  // ---------------------------------------------------------------- reset_active_tiles

  /** The test reset_active_tiles applies to a tile: its screen position,
      not its grid position, is positive on both axes. */
  predicate Positive(t: Tile) {
    t.pose.x > 0 && t.pose.y > 0
  }

  /** The tiles of `s` that pass the test, in their order. */
  function Positives(s: seq<Tile>): (r: seq<Tile>)
    ensures forall t :: t in r <==> t in s && Positive(t)
    ensures |r| <= |s|
  {
    if s == [] then []
    else Positives(s[..|s| - 1]) + (if Positive(s[|s| - 1]) then [s[|s| - 1]] else [])
  }

  /** Filtering a concatenation filters each part: the active tiles keep the
      order they have in the tile list. */
  lemma {:induction false} PositivesAppend(a: seq<Tile>, b: seq<Tile>)
    ensures Positives(a + b) == Positives(a) + Positives(b)
  {
    if b == [] {
      assert a + b == a;
    } else {
      var b0 := b[..|b| - 1];
      assert (a + b)[..|a + b| - 1] == a + b0;
      assert (a + b)[|a + b| - 1] == b[|b| - 1];
      PositivesAppend(a, b0);
    }
  }

  /** Filtering twice is filtering once. */
  lemma {:induction false} PositivesIdempotent(s: seq<Tile>)
    ensures Positives(Positives(s)) == Positives(s)
  {
    if s != [] {
      var p := Positives(s[..|s| - 1]);
      var last := s[|s| - 1];
      PositivesIdempotent(s[..|s| - 1]);
      if Positive(last) {
        PositivesAppend(p, [last]);
        assert Positives([last]) == [last] by {
          assert [last][..0] == [];
        }
      } else {
        assert Positives(s) == p;
      }
    }
  }

  /** The filter keeps distinct tiles distinct. */
  lemma {:induction false} PositivesKeepIds(s: seq<Tile>)
    requires IdsUnique(s)
    ensures IdsUnique(Positives(s))
  {
    if s != [] {
      var p := s[..|s| - 1];
      var last := s[|s| - 1];
      assert IdsUnique(p) by {
        forall i, j | 0 <= i < |p| && 0 <= j < |p| && p[i].id == p[j].id
          ensures i == j
        {
          assert p[i] == s[i] && p[j] == s[j];
        }
      }
      PositivesKeepIds(p);
      if Positive(last) {
        forall t | t in Positives(p)
          ensures t.id != last.id
        {
          var k :| 0 <= k < |p| && p[k] == t;
          assert s[k] == t;
        }
        IdsUniqueSnoc(Positives(p), last);
      }
    }
  }

  // ---------------------------------------------------------------- flip and update

  /** Every tile of `s` given the pose `f` computes from its own: what a
      loop calling each tile's flip or update does. The tiles stay the same
      objects, in the same order. */
  function MapPoses(s: seq<Tile>, f: Pose -> Pose): (r: seq<Tile>)
    ensures |r| == |s|
    ensures forall i :: 0 <= i < |s| ==> r[i].id == s[i].id && r[i].kind == s[i].kind && r[i].pose == f(s[i].pose)
  {
    seq(|s|, i requires 0 <= i < |s| => s[i].(pose := f(s[i].pose)))
  }

  /** Updating every tile keeps distinct tiles distinct, and a tile of a
      sublist is updated the same way as in the whole list. */
  lemma MapPosesKeepsIds(s: seq<Tile>, f: Pose -> Pose)
    requires IdsUnique(s)
    ensures IdsUnique(MapPoses(s, f))
  {
  }

  lemma MapPosesKeepsSublist(a: seq<Tile>, s: seq<Tile>, f: Pose -> Pose)
    requires forall t :: t in a ==> t in s
    ensures forall t :: t in MapPoses(a, f) ==> t in MapPoses(s, f)
  {
    forall t | t in MapPoses(a, f)
      ensures t in MapPoses(s, f)
    {
      var i :| 0 <= i < |a| && MapPoses(a, f)[i] == t;
      assert a[i] in s;
      var j :| 0 <= j < |s| && s[j] == a[i];
      assert MapPoses(s, f)[j] == t;
    }
  }

  lemma MapPosesKeepsBound(s: seq<Tile>, f: Pose -> Pose, n: nat)
    requires forall t :: t in s ==> t.id < n
    ensures forall t :: t in MapPoses(s, f) ==> t.id < n
  {
    forall t | t in MapPoses(s, f)
      ensures t.id < n
    {
      var i :| 0 <= i < |s| && MapPoses(s, f)[i] == t;
      assert s[i] in s;
    }
  }

  // ---------------------------------------------------------------- find_tile

  /** Some tile of `s` sits at grid position (tx, ty). */
  predicate Occupied(s: seq<Tile>, tx: int, ty: int) {
    exists i :: 0 <= i < |s| && s[i].pose.tilex == tx && s[i].pose.tiley == ty
  }

  /** The position of the first tile of `s` at (tx, ty). */
  function FirstAt(s: seq<Tile>, tx: int, ty: int): (r: Option<nat>)
    ensures r.None? <==> !Occupied(s, tx, ty)
    ensures r.Some? ==>
      r.value < |s| && s[r.value].pose.tilex == tx && s[r.value].pose.tiley == ty &&
      forall j :: 0 <= j < r.value ==> !(s[j].pose.tilex == tx && s[j].pose.tiley == ty)
    decreases |s|
  {
    if s == [] then None
    else if s[0].pose.tilex == tx && s[0].pose.tiley == ty then Some(0)
    else match FirstAt(s[1..], tx, ty)
      case None =>
        assert forall i :: 1 <= i < |s| ==> s[i] == s[1..][i - 1];
        None
      case Some(k) =>
        assert forall j :: 1 <= j <= k ==> s[j] == s[1..][j - 1];
        Some(k + 1)
  }

  /** A tile appended at a free position is the one found there afterwards. */
  lemma FirstAtAppended(s: seq<Tile>, t: Tile)
    requires !Occupied(s, t.pose.tilex, t.pose.tiley)
    ensures FirstAt(s + [t], t.pose.tilex, t.pose.tiley) == Some(|s|)
  {
    var r := s + [t];
    var tx, ty := t.pose.tilex, t.pose.tiley;
    assert r[|s|] == t;
    assert forall j :: 0 <= j < |s| ==> r[j] == s[j];
  }

  /** Appending a tile does not change what is found at a position already taken. */
  lemma FirstAtKeepsEarlier(s: seq<Tile>, t: Tile, tx: int, ty: int)
    requires Occupied(s, tx, ty)
    ensures FirstAt(s + [t], tx, ty) == FirstAt(s, tx, ty)
  {
    var r := s + [t];
    var a := FirstAt(s, tx, ty).value;
    assert r[a] == s[a];
    assert forall j :: 0 <= j < |s| ==> r[j] == s[j];
  }

  // ---------------------------------------------------------------- remove_tile

  /** list.remove: the first occurrence of `t` taken out, or the list
      unchanged when `t` is not in it (where Python raises ValueError). */
  function RemoveFirst(s: seq<Tile>, t: Tile): (r: seq<Tile>)
    ensures t in s ==> |r| == |s| - 1
    ensures t !in s ==> r == s
    ensures forall x :: x in r ==> x in s
    ensures forall x :: x in s && x != t ==> x in r
  {
    if s == [] then []
    else if s[0] == t then s[1..]
    else
      assert forall x :: x in s && x != s[0] ==> x in s[1..];
      [s[0]] + RemoveFirst(s[1..], t)
  }

  /** Taking out the element at `i`, when no earlier element equals it. */
  lemma {:induction false} RemoveFirstAt(s: seq<Tile>, i: nat)
    requires i < |s| && forall j :: 0 <= j < i ==> s[j] != s[i]
    ensures RemoveFirst(s, s[i]) == s[..i] + s[i + 1..]
  {
    if i > 0 {
      assert s[1..][i - 1] == s[i];
      RemoveFirstAt(s[1..], i - 1);
      assert s[..i] == [s[0]] + s[1..][..i - 1];
      assert s[i + 1..] == s[1..][i..];
    }
  }

  lemma {:induction false} RemoveFirstKeepsIds(s: seq<Tile>, t: Tile)
    requires IdsUnique(s)
    ensures IdsUnique(RemoveFirst(s, t))
  {
    if s != [] && s[0] != t {
      IdsUniqueTail(s);
      RemoveFirstKeepsIds(s[1..], t);
      IdsUniqueCons(s[0], RemoveFirst(s[1..], t));
    } else if s != [] {
      IdsUniqueTail(s);
    }
  }

  /** Each tile of `r` taken out of `s` in turn. */
  function RemoveEach(s: seq<Tile>, r: seq<Tile>): (q: seq<Tile>)
    ensures |q| <= |s|
    ensures forall x :: x in q ==> x in s
    ensures forall x :: x in s && x !in r ==> x in q
  {
    if r == [] then s
    else RemoveFirst(RemoveEach(s, r[..|r| - 1]), r[|r| - 1])
  }

  lemma {:induction false} RemoveEachKeepsIds(s: seq<Tile>, r: seq<Tile>)
    requires IdsUnique(s)
    ensures IdsUnique(RemoveEach(s, r))
  {
    if r != [] {
      RemoveEachKeepsIds(s, r[..|r| - 1]);
      RemoveFirstKeepsIds(RemoveEach(s, r[..|r| - 1]), r[|r| - 1]);
    }
  }

  /** Removing tiles never leaves a removed one behind, as long as the list
      holds distinct objects. */
  lemma {:induction false} RemoveEachRemoves(s: seq<Tile>, r: seq<Tile>, x: Tile)
    requires IdsUnique(s) && x in r
    ensures x !in RemoveEach(s, r)
  {
    var p := r[..|r| - 1];
    var q := RemoveEach(s, p);
    RemoveEachKeepsIds(s, p);
    if x == r[|r| - 1] {
      RemoveFirstGone(q, x);
    } else {
      assert x in p;
      RemoveEachRemoves(s, p, x);
    }
  }

  lemma RemoveFirstGone(s: seq<Tile>, x: Tile)
    requires IdsUnique(s)
    ensures x !in RemoveFirst(s, x)
  {
    if x in s {
      var i :| 0 <= i < |s| && s[i] == x;
      RemoveFirstAt(s, i);
    }
  }

  /** What the loop of remove_tile does to the active tiles: walking the list
      while taking tiles out of it, each tile that contains the point is
      removed and the tile right after it is stepped over unexamined. The first
      part is what stays, the second what was removed, in order. */
  function Sweep(s: seq<Tile>, px: int, py: int): (r: (seq<Tile>, seq<Tile>))
    ensures forall t :: t in r.0 ==> t in s
    ensures forall t :: t in r.1 ==> t in s && t.pose.rect.ContainsPoint(px, py)
    ensures |r.0| + |r.1| == |s|
    ensures r.1 == [] <==> forall i :: 0 <= i < |s| ==> !s[i].pose.rect.ContainsPoint(px, py)
    decreases |s|
  {
    if s == [] then ([], [])
    else if s[0].pose.rect.ContainsPoint(px, py) then
      if |s| == 1 then ([], [s[0]])
      else
        var rest := Sweep(s[2..], px, py);
        assert forall t :: t in s[2..] ==> t in s;
        ([s[1]] + rest.0, [s[0]] + rest.1)
    else
      var rest := Sweep(s[1..], px, py);
      assert forall i :: 1 <= i < |s| ==> s[i] == s[1..][i - 1];
      ([s[0]] + rest.0, rest.1)
  }

  /** The sweep splits a list of distinct tiles into two lists of distinct
      tiles with nothing in common. */
  lemma {:induction false} SweepKeepsIdsApart(s: seq<Tile>, px: int, py: int)
    requires IdsUnique(s)
    ensures var r := Sweep(s, px, py);
      IdsUnique(r.0) && IdsUnique(r.1) && forall a, b :: a in r.0 && b in r.1 ==> a.id != b.id
    decreases |s|
  {
    if s != [] {
      IdsUniqueTail(s);
      if s[0].pose.rect.ContainsPoint(px, py) {
        if |s| > 1 {
          var t := s[1..];
          IdsUniqueTail(t);
          assert s[2..] == t[1..];
          SweepKeepsIdsApart(s[2..], px, py);
          var rest := Sweep(s[2..], px, py);
          IdsUniqueCons(s[1], rest.0);
          IdsUniqueCons(s[0], rest.1);
        }
      } else {
        SweepKeepsIdsApart(s[1..], px, py);
        var rest := Sweep(s[1..], px, py);
        IdsUniqueCons(s[0], rest.0);
      }
    }
  }

  /** The skipping at work: of two tiles that both contain the point, only
      the first is removed. */
  lemma SweepStepsOver(a: Tile, b: Tile, px: int, py: int)
    requires a.pose.rect.ContainsPoint(px, py) && b.pose.rect.ContainsPoint(px, py)
    ensures Sweep([a, b], px, py) == ([b], [a])
  {
    assert [a, b][2..] == [];
    assert Sweep([], px, py) == ([], []);
    assert [b] + [] == [b] && [a] + [] == [a];
  }

  // ---------------------------------------------------------------- the tile block of a level file

  /** A tile to be added: its kind and grid position. */
  datatype Cell = Cell(kind: TileKind, tilex: int, tiley: int)

  /** The tiles add_tile builds for `cells`, numbered from `id0` on. The
      constructor of lib/tile.py is the parameter `place`; the tile keeps the
      grid position it was created at. */
  function Built(place: (TileKind, int, int) -> Pose, id0: nat, cells: seq<Cell>): (r: seq<Tile>)
    ensures |r| == |cells|
    ensures forall i :: 0 <= i < |r| ==> r[i].id == id0 + i
  {
    if cells == [] then []
    else
      var c := cells[|cells| - 1];
      Built(place, id0, cells[..|cells| - 1]) + [Tile(id0 + |cells| - 1, c.kind, place(c.kind, c.tilex, c.tiley).(tilex := c.tilex, tiley := c.tiley))]
  }

  /** The tile add_tile makes for a type code, numbered `id`: a wall for
      "W", bars for "B", spikes for "S", and none for any other code. */
  function Made(place: (TileKind, int, int) -> Pose, id: nat, code: string, tilex: int, tiley: int): (r: seq<Tile>)
    ensures |r| <= 1
    ensures r == [] <==> KindOf(code).None?
    ensures r != [] ==>
      r[0].id == id && Some(r[0].kind) == KindOf(code) && r[0].pose.tilex == tilex && r[0].pose.tiley == tiley
  {
    match KindOf(code)
    case None => []
    case Some(k) => [Tile(id, k, place(k, tilex, tiley).(tilex := tilex, tiley := tiley))]
  }

  /** Adding the tiles of a list of cells one by one builds them in order. */
  lemma MadeIsBuilt(place: (TileKind, int, int) -> Pose, id0: nat, cells: seq<Cell>, code: string, tilex: int, tiley: int)
    requires KindOf(code).Some?
    ensures Built(place, id0, cells) + Made(place, id0 + |cells|, code, tilex, tiley) ==
      Built(place, id0, cells + [Cell(KindOf(code).value, tilex, tiley)])
  {
    assert (cells + [Cell(KindOf(code).value, tilex, tiley)])[..|cells|] == cells;
  }

  lemma {:induction false} BuiltAppend(place: (TileKind, int, int) -> Pose, id0: nat, a: seq<Cell>, b: seq<Cell>)
    ensures Built(place, id0, a + b) == Built(place, id0, a) + Built(place, id0 + |a|, b)
  {
    if b == [] {
      assert a + b == a;
    } else {
      var b0 := b[..|b| - 1];
      assert (a + b)[..|a + b| - 1] == a + b0;
      assert (a + b)[|a + b| - 1] == b[|b| - 1];
      BuiltAppend(place, id0, a, b0);
    }
  }

  /** The cells of the first `n` characters of a grid row at height `tiley`:
      one per "W", "B" or "S", in the order of the row. */
  function RowCells(line: string, tiley: int, n: nat): seq<Cell>
    requires n <= |line|
  {
    if n == 0 then []
    else
      var p := RowCells(line, tiley, n - 1);
      match KindOf([line[n - 1]])
      case None => p
      case Some(k) => p + [Cell(k, n - 1, tiley)]
  }

  /** A row's cells are exactly its "W", "B" and "S" characters before `n`,
      in the order of the row. */
  lemma {:induction false} RowCellsContents(line: string, tiley: int, n: nat)
    requires n <= |line|
    ensures var r := RowCells(line, tiley, n);
      (forall c :: c in r <==> c.tiley == tiley && 0 <= c.tilex < n && KindOf([line[c.tilex]]) == Some(c.kind)) &&
      (forall i, j :: 0 <= i < j < |r| ==> r[i].tilex < r[j].tilex) &&
      (forall i :: 0 <= i < |r| ==> r[i].tilex < n)
  {
    if n > 0 {
      RowCellsContents(line, tiley, n - 1);
    }
  }

  /** Where the reading of a tile block stands: the cells read, the row
      counter, whether the block is still being read, whether it failed, and
      how many lines it has taken. */
  datatype Grid = Grid(cells: seq<Cell>, tiley: int, parsing: bool, ok: bool, used: nat)

  /** One line of the level file while the tile block is read. While the row
      counter is below `full`, the line is a row: its first `full` characters
      are read (IndexError at the end of a shorter line, after the cells
      before it are added) and the counter advances. After that the next line
      ends the block and is otherwise ignored. */
  function GridStep(g: Grid, line: string, full: int): (r: Grid)
    ensures g.parsing ==> r.used == g.used + 1
    ensures !g.parsing ==> r == g
  {
    if !g.parsing then g
    else if g.tiley < full then
      if |line| < full then Grid(g.cells + RowCells(line, g.tiley, |line|), g.tiley, false, false, g.used + 1)
      else Grid(g.cells + RowCells(line, g.tiley, if full < 0 then 0 else full), g.tiley + 1, true, true, g.used + 1)
    else Grid(g.cells, g.tiley, false, true, g.used + 1)
  }

  /** The tile block read from `lines`, starting with row counter `tiley0`. */
  function GridOf(lines: seq<string>, tiley0: int, full: int): (g: Grid)
    ensures g.used <= |lines|
  {
    GridUpTo(lines, |lines|, tiley0, full)
  }

  /** The tile block read from the first `n` of `lines`. */
  function GridUpTo(lines: seq<string>, n: nat, tiley0: int, full: int): (g: Grid)
    requires n <= |lines|
    ensures g.used <= n
  {
    if n == 0 then Grid([], tiley0, true, true, 0)
    else GridStep(GridUpTo(lines, n - 1, tiley0, full), lines[n - 1], full)
  }

  /** The cells of a square grid: (x, y) holds a tile of kind k exactly when
      row y has the code of k at column x, for x and y below `full`. */
  ghost predicate SquareCells(cells: seq<Cell>, rows: seq<string>, full: nat)
    requires |rows| >= full && forall y :: 0 <= y < full ==> |rows[y]| >= full
  {
    forall c :: c in cells <==>
      0 <= c.tilex < full && 0 <= c.tiley < full && KindOf([rows[c.tiley][c.tilex]]) == Some(c.kind)
  }

  /** The first `k` rows of a block of long enough rows, started at row 0. */
  lemma {:induction false} GridRows(lines: seq<string>, full: nat, k: nat)
    requires k <= full && k <= |lines| && forall y :: 0 <= y < full && y < |lines| ==> |lines[y]| >= full
    ensures var g := GridUpTo(lines, k, 0, full);
      g.tiley == k && g.parsing && g.ok && g.used == k &&
      forall c :: c in g.cells <==>
        0 <= c.tilex < full && 0 <= c.tiley < k && KindOf([lines[c.tiley][c.tilex]]) == Some(c.kind)
  {
    if k > 0 {
      GridRows(lines, full, k - 1);
      var row := RowCells(lines[k - 1], k - 1, full);
      RowCellsContents(lines[k - 1], k - 1, full);
      var before := GridUpTo(lines, k - 1, 0, full).cells;
      assert GridUpTo(lines, k, 0, full).cells == before + row;
      forall c: Cell
        ensures c in before + row <==>
          0 <= c.tilex < full && 0 <= c.tiley < k && KindOf([lines[c.tiley][c.tilex]]) == Some(c.kind)
      {
        assert c in before + row <==> c in before || c in row;
      }
    }
  }

  /** A block of `full` rows of at least `full` characters each, followed
      by one more line: every "W", "B" and "S" of the `full` by `full` square
      becomes a tile, and the line after the last row is taken by the block
      too. The same bound limits both the rows and the columns. */
  lemma SquareBlock(lines: seq<string>, full: nat)
    requires |lines| > full && forall y :: 0 <= y < full ==> |lines[y]| >= full
    ensures var g := GridUpTo(lines, full + 1, 0, full);
      g.ok && !g.parsing && g.used == full + 1 && g.tiley == full && SquareCells(g.cells, lines, full)
  {
    GridRows(lines, full, full);
  }

  /** Once the block has ended or failed, further lines change nothing. */
  lemma {:induction false} GridStopped(lines: seq<string>, tiley0: int, full: int, k: nat)
    requires k <= |lines| && !GridUpTo(lines, k, tiley0, full).parsing
    ensures GridOf(lines, tiley0, full) == GridUpTo(lines, k, tiley0, full)
    decreases |lines| - k
  {
    if k < |lines| {
      GridStopped(lines, tiley0, full, k + 1);
    }
  }
}
