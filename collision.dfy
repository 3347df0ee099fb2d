/** The collision resolver of lib/level.py (Level.collide) as a fold over the
    active tiles: each aligned tile whose box overlaps the moving box may
    report one horizontal and one vertical side, and a later tile's report
    replaces an earlier one's. */
module Collisions {
  import opened Wrappers
  import opened Geometry
  import opened Util
  import opened Tiles

  /** The dictionary collide returns, keyed RIGHT, LEFT, DOWN, UP and DAMAGE:
      the coordinate of the tile side met on each side of the moving box, or
      None, and the damage of the ground met. */
  datatype Collision = Collision(right: Option<int>, left: Option<int>, down: Option<int>, up: Option<int>, damage: int)

  const NoCollision: Collision := Collision(None, None, None, None, 0)

  /** The copy of the moving box that collide tests, one larger in each size. */
  function Grown(r: Rect): (g: Rect)
    ensures g.left == r.left && g.top == r.top && g.Right() == r.Right() + 1 && g.Bottom() == r.Bottom() + 1
  {
    Rect(r.left, r.top, r.width + 1, r.height + 1)
  }

  /** The sides of tile `t` that box `m` touches and that no neighbouring tile
      of `tiles` covers, named after the side of `m` they face: the tile's
      bottom is the box's top, the tile's top the box's bottom, and so on. */
  datatype Faces = Faces(top: bool, bottom: bool, left: bool, right: bool)

  function FacesOf(t: Tile, m: Rect, tiles: seq<Tile>): Faces {
    var e := GetEdges(t.pose.rect);
    var tx, ty := t.pose.tilex, t.pose.tiley;
    Faces(m.Collides(e.down) && !Occupied(tiles, tx, ty + 1),
          m.Collides(e.up) && !Occupied(tiles, tx, ty - 1),
          m.Collides(e.right) && !Occupied(tiles, tx + 1, ty),
          m.Collides(e.left) && !Occupied(tiles, tx - 1, ty))
  }

  /** One turn of collide's loop: tile `t` updates `c` for the box `m` moving by
      (dx, dy); `tiles` is the whole tile list, which find_tile searches. An
      unaligned tile, or one whose box does not overlap `m`, is passed over.
      A side is only taken when the box moves towards it, and when the box
      also touches a crossing side, only when the overlap is the right shape. */
  function Apply(c: Collision, t: Tile, m: Rect, dy: int, dx: int, tiles: seq<Tile>): (r: Collision)
    ensures !t.pose.aligned || !t.pose.rect.Clip(m).NonEmpty() ==> r == c
    ensures r.right != c.right ==> dx > 0 && r.right == Some(t.pose.rect.left)
    ensures r.left != c.left ==> dx < 0 && r.left == Some(t.pose.rect.Right())
    ensures r.down != c.down ==> dy >= 0 && r.down == Some(t.pose.rect.top)
    ensures r.up != c.up ==> dy < 0 && r.up == Some(t.pose.rect.Bottom())
    ensures r.damage != c.damage ==> r.down == Some(t.pose.rect.top) && r.damage == (if t.kind == Spikes then 5 else 0)
  {
    if !t.pose.aligned then c
    else
      var overlap := t.pose.rect.Clip(m);
      if !overlap.NonEmpty() then c
      else
        var f := FacesOf(t, m, tiles);
        var canH := !(f.top || f.bottom) || dy == 0 || overlap.width < overlap.height;
        var c1 :=
          if dx > 0 && f.right && canH then c.(right := Some(t.pose.rect.left))
          else if dx < 0 && f.left && canH then c.(left := Some(t.pose.rect.Right()))
          else c;
        var canV := !(f.left || f.right) || dx == 0 || overlap.width >= overlap.height;
        if dy >= 0 && f.bottom && canV then
          c1.(down := Some(t.pose.rect.top), damage := if t.kind == Spikes then 5 else 0)
        else if dy < 0 && f.top && canV then c1.(up := Some(t.pose.rect.Bottom()))
        else c1
  }

  /** What collide returns for the tiles `ts`, visited in order, with the
      box already grown. Each side is only ever reported in the direction of
      motion, so the two sides of an axis are never both reported, and damage
      comes from the ground below and is 0 or 5. */
  function Resolve(ts: seq<Tile>, m: Rect, dy: int, dx: int, tiles: seq<Tile>): (r: Collision)
    ensures r.right.Some? ==> dx > 0
    ensures r.left.Some? ==> dx < 0
    ensures r.down.Some? ==> dy >= 0
    ensures r.up.Some? ==> dy < 0
    ensures r.damage == 0 || r.damage == 5
    ensures r.damage != 0 ==> r.down.Some?
  {
    if ts == [] then NoCollision
    else Apply(Resolve(ts[..|ts| - 1], m, dy, dx, tiles), ts[|ts| - 1], m, dy, dx, tiles)
  }

  /** What tile `t` reports on its own. A reported side always carries the
      coordinate of the matching side of the tile, and only a side of an
      aligned tile that no neighbour covers is ever reported. */
  function Hit(t: Tile, m: Rect, dy: int, dx: int, tiles: seq<Tile>): (h: Collision)
    ensures h.right.Some? ==>
      t.pose.aligned && h.right.value == t.pose.rect.left && !Occupied(tiles, t.pose.tilex - 1, t.pose.tiley)
    ensures h.left.Some? ==>
      t.pose.aligned && h.left.value == t.pose.rect.Right() && !Occupied(tiles, t.pose.tilex + 1, t.pose.tiley)
    ensures h.down.Some? ==>
      t.pose.aligned && h.down.value == t.pose.rect.top && !Occupied(tiles, t.pose.tilex, t.pose.tiley - 1)
    ensures h.up.Some? ==>
      t.pose.aligned && h.up.value == t.pose.rect.Bottom() && !Occupied(tiles, t.pose.tilex, t.pose.tiley + 1)
    ensures h.damage == (if h.down.Some? && t.kind == Spikes then 5 else 0)
    ensures !t.pose.aligned ==> h == NoCollision
  {
    Apply(NoCollision, t, m, dy, dx, tiles)
  }

  /** `c` with every side that `e` reports replaced by `e`'s; the damage goes
      with the ground below. */
  function Overlay(c: Collision, e: Collision): Collision {
    Collision(
      if e.right.Some? then e.right else c.right,
      if e.left.Some? then e.left else c.left,
      if e.down.Some? then e.down else c.down,
      if e.up.Some? then e.up else c.up,
      if e.down.Some? then e.damage else c.damage)
  }

  /** A turn of the loop lays the tile's own report over what came before:
      what a tile reports does not depend on the tiles before it. */
  lemma ApplyIsOverlay(c: Collision, t: Tile, m: Rect, dy: int, dx: int, tiles: seq<Tile>)
    ensures Apply(c, t, m, dy, dx, tiles) == Overlay(c, Hit(t, m, dy, dx, tiles))
  {
  }

  lemma OverlayAssociative(a: Collision, b: Collision, c: Collision)
    ensures Overlay(Overlay(a, b), c) == Overlay(a, Overlay(b, c))
  {
  }

  /** Later tiles win: the result for `a + b` is the result for `a` with
      every side that `b` reports replaced by `b`'s report. */
  lemma {:induction false} ResolveAppend(a: seq<Tile>, b: seq<Tile>, m: Rect, dy: int, dx: int, tiles: seq<Tile>)
    ensures Resolve(a + b, m, dy, dx, tiles) == Overlay(Resolve(a, m, dy, dx, tiles), Resolve(b, m, dy, dx, tiles))
  {
    if b == [] {
      assert a + b == a;
    } else {
      var b0 := b[..|b| - 1];
      var t := b[|b| - 1];
      assert (a + b)[..|a + b| - 1] == a + b0;
      assert (a + b)[|a + b| - 1] == t;
      ResolveAppend(a, b0, m, dy, dx, tiles);
      var h := Hit(t, m, dy, dx, tiles);
      ApplyIsOverlay(Resolve(a + b0, m, dy, dx, tiles), t, m, dy, dx, tiles);
      ApplyIsOverlay(Resolve(b0, m, dy, dx, tiles), t, m, dy, dx, tiles);
      OverlayAssociative(Resolve(a, m, dy, dx, tiles), Resolve(b0, m, dy, dx, tiles), h);
    }
  }

  /** The last of the first `n` tiles of `ts` that satisfies `p`, if any. */
  function LastWhere(ts: seq<Tile>, n: nat, p: Tile -> bool): (r: Option<nat>)
    requires n <= |ts|
    ensures r.Some? ==> r.value < n && p(ts[r.value])
    ensures r.Some? ==> forall j :: r.value < j < n ==> !p(ts[j])
    ensures r.None? ==> forall j :: 0 <= j < n ==> !p(ts[j])
  {
    if n == 0 then None
    else if p(ts[n - 1]) then Some(n - 1)
    else LastWhere(ts, n - 1, p)
  }

  /** The last of the first `n` tiles of `ts` that reports the ground below, if any. */
  function LastDown(ts: seq<Tile>, n: nat, m: Rect, dy: int, dx: int, tiles: seq<Tile>): Option<nat>
    requires n <= |ts|
  {
    LastWhere(ts, n, t => Hit(t, m, dy, dx, tiles).down.Some?)
  }

  /** The ground below and the damage are those of the last tile that reports
      ground below: 5 exactly when that tile is a spikes tile, and no damage
      when no tile reports ground below. */
  lemma DownFromLastTile(ts: seq<Tile>, m: Rect, dy: int, dx: int, tiles: seq<Tile>)
    ensures var r := Resolve(ts, m, dy, dx, tiles);
      match LastDown(ts, |ts|, m, dy, dx, tiles)
      case None => r.down.None? && r.damage == 0
      case Some(i) =>
        r.down == Some(ts[i].pose.rect.top) &&
        r.damage == (if ts[i].kind == Spikes then 5 else 0)
  {
    DownFromLastTileUpTo(ts, |ts|, m, dy, dx, tiles);
    assert ts[..|ts|] == ts;
  }

  lemma {:induction false} DownFromLastTileUpTo(ts: seq<Tile>, n: nat, m: Rect, dy: int, dx: int, tiles: seq<Tile>)
    requires n <= |ts|
    ensures var r := Resolve(ts[..n], m, dy, dx, tiles);
      match LastDown(ts, n, m, dy, dx, tiles)
      case None => r.down.None? && r.damage == 0
      case Some(i) =>
        r.down == Some(ts[i].pose.rect.top) &&
        r.damage == (if ts[i].kind == Spikes then 5 else 0)
  {
    if n > 0 {
      var t := ts[n - 1];
      assert ts[..n][..n - 1] == ts[..n - 1];
      assert ts[..n][n - 1] == t;
      DownFromLastTileUpTo(ts, n - 1, m, dy, dx, tiles);
      ApplyIsOverlay(Resolve(ts[..n - 1], m, dy, dx, tiles), t, m, dy, dx, tiles);
    }
  }

  /** Every side collide reports was reported by one of the tiles on its own,
      with the same coordinate. */
  lemma {:induction false} ReportedByATile(ts: seq<Tile>, m: Rect, dy: int, dx: int, tiles: seq<Tile>)
    ensures var r := Resolve(ts, m, dy, dx, tiles);
      (r.right.Some? ==> exists i :: 0 <= i < |ts| && Hit(ts[i], m, dy, dx, tiles).right == r.right) &&
      (r.left.Some? ==> exists i :: 0 <= i < |ts| && Hit(ts[i], m, dy, dx, tiles).left == r.left) &&
      (r.down.Some? ==> exists i :: 0 <= i < |ts| && Hit(ts[i], m, dy, dx, tiles).down == r.down) &&
      (r.up.Some? ==> exists i :: 0 <= i < |ts| && Hit(ts[i], m, dy, dx, tiles).up == r.up)
  {
    if ts != [] {
      var p := ts[..|ts| - 1];
      var t := ts[|ts| - 1];
      ReportedByATile(p, m, dy, dx, tiles);
      ApplyIsOverlay(Resolve(p, m, dy, dx, tiles), t, m, dy, dx, tiles);
      assert forall j :: 0 <= j < |p| ==> ts[j] == p[j];
      assert ts[|ts| - 1] == t;
    }
  }

  /** The sides collide reports are uncovered sides of aligned tiles: the
      ground below is the top of an aligned tile with nothing above it, and
      likewise for the other three sides. */
  lemma ReportedSidesAreExposed(ts: seq<Tile>, m: Rect, dy: int, dx: int, tiles: seq<Tile>)
    ensures var r := Resolve(ts, m, dy, dx, tiles);
      (r.down.Some? ==>
        exists i :: 0 <= i < |ts| && ts[i].pose.aligned &&
          r.down.value == ts[i].pose.rect.top && !Occupied(tiles, ts[i].pose.tilex, ts[i].pose.tiley - 1)) &&
      (r.up.Some? ==>
        exists i :: 0 <= i < |ts| && ts[i].pose.aligned &&
          r.up.value == ts[i].pose.rect.Bottom() && !Occupied(tiles, ts[i].pose.tilex, ts[i].pose.tiley + 1)) &&
      (r.right.Some? ==>
        exists i :: 0 <= i < |ts| && ts[i].pose.aligned &&
          r.right.value == ts[i].pose.rect.left && !Occupied(tiles, ts[i].pose.tilex - 1, ts[i].pose.tiley)) &&
      (r.left.Some? ==>
        exists i :: 0 <= i < |ts| && ts[i].pose.aligned &&
          r.left.value == ts[i].pose.rect.Right() && !Occupied(tiles, ts[i].pose.tilex + 1, ts[i].pose.tiley))
  {
    ReportedByATile(ts, m, dy, dx, tiles);
  }

  /** The aligned tiles of `ts`, in order. */
  function Aligned(ts: seq<Tile>): (r: seq<Tile>)
    ensures forall t :: t in r <==> t in ts && t.pose.aligned
  {
    if ts == [] then []
    else Aligned(ts[..|ts| - 1]) + (if ts[|ts| - 1].pose.aligned then [ts[|ts| - 1]] else [])
  }

  /** Unaligned tiles make no difference to the result. */
  lemma {:induction false} UnalignedIgnored(ts: seq<Tile>, m: Rect, dy: int, dx: int, tiles: seq<Tile>)
    ensures Resolve(ts, m, dy, dx, tiles) == Resolve(Aligned(ts), m, dy, dx, tiles)
  {
    if ts != [] {
      var p := ts[..|ts| - 1];
      var t := ts[|ts| - 1];
      UnalignedIgnored(p, m, dy, dx, tiles);
      ResolveSnoc(p, t, m, dy, dx, tiles);
      assert ts == p + [t];
      if t.pose.aligned {
        assert Aligned(ts) == Aligned(p) + [t];
        ResolveSnoc(Aligned(p), t, m, dy, dx, tiles);
      } else {
        assert Aligned(ts) == Aligned(p);
        ApplyUnaligned(Resolve(p, m, dy, dx, tiles), t, m, dy, dx, tiles);
      }
    }
  }

  lemma ResolveSnoc(p: seq<Tile>, t: Tile, m: Rect, dy: int, dx: int, tiles: seq<Tile>)
    ensures Resolve(p + [t], m, dy, dx, tiles) == Apply(Resolve(p, m, dy, dx, tiles), t, m, dy, dx, tiles)
  {
    assert (p + [t])[..|p|] == p;
  }

  lemma ApplyUnaligned(c: Collision, t: Tile, m: Rect, dy: int, dx: int, tiles: seq<Tile>)
    requires !t.pose.aligned
    ensures Apply(c, t, m, dy, dx, tiles) == c
  {
  }

  /** A single tile reports what it reports on its own. */
  lemma ResolveOne(t: Tile, m: Rect, dy: int, dx: int, tiles: seq<Tile>)
    ensures Resolve([t], m, dy, dx, tiles) == Hit(t, m, dy, dx, tiles)
  {
    ResolveSnoc([], t, m, dy, dx, tiles);
    assert [] + [t] == [t];
  }

  /** The falling box of the examples below: 10 by 10 at the origin, grown by one. */
  const Faller: Rect := Grown(Rect(0, 0, 10, 10))

  /** The tile of the examples: 10 by 10, right below the falling box. */
  predicate BelowFaller(t: Tile) {
    t.pose == Pose(0, 1, 0, 10, Rect(0, 10, 10, 10), true)
  }

  lemma FallerIs()
    ensures Faller == Rect(0, 0, 11, 11)
  {
  }

  lemma FallerOverlap()
    ensures Rect(0, 10, 10, 10).Clip(Faller) == Rect(0, 10, 10, 1)
  {
    FallerIs();
  }

  lemma TileEdges()
    ensures GetEdges(Rect(0, 10, 10, 10)) ==
      Edges(Rect(0, 10, 0, 10), Rect(10, 10, 0, 10), Rect(0, 10, 10, 0), Rect(0, 20, 10, 0))
  {
  }

  lemma MissesBottomEdge()
    ensures !Rect(0, 0, 11, 11).Collides(Rect(0, 20, 10, 0))
  {
  }

  lemma MeetsTopEdge()
    ensures Rect(0, 0, 11, 11).Collides(Rect(0, 10, 10, 0))
  {
  }

  lemma MeetsRightEdge()
    ensures Rect(0, 0, 11, 11).Collides(Rect(10, 10, 0, 10))
  {
  }

  lemma MissesLeftEdge()
    ensures !Rect(0, 0, 11, 11).Collides(Rect(0, 10, 0, 10))
  {
  }

  lemma FallerEdges()
    ensures var e := GetEdges(Rect(0, 10, 10, 10));
      !Faller.Collides(e.down) && Faller.Collides(e.up) && Faller.Collides(e.right) && !Faller.Collides(e.left)
  {
    FallerIs();
    TileEdges();
    MissesBottomEdge();
    MeetsTopEdge();
    MeetsRightEdge();
    MissesLeftEdge();
  }

  lemma FallerMeetsTile(t: Tile)
    requires BelowFaller(t)
    ensures t.pose.rect.Clip(Faller) == Rect(0, 10, 10, 1)
    ensures var e := GetEdges(t.pose.rect);
      !Faller.Collides(e.down) && Faller.Collides(e.up) && Faller.Collides(e.right) && !Faller.Collides(e.left)
  {
    FallerOverlap();
    FallerEdges();
  }

  lemma LoneTileFaces(t: Tile)
    requires BelowFaller(t)
    ensures FacesOf(t, Faller, [t]).bottom
  {
    FallerTouchesTop(t);
    NothingAbove(t);
  }

  lemma FallerTouchesTop(t: Tile)
    requires BelowFaller(t)
    ensures Faller.Collides(GetEdges(t.pose.rect).up)
  {
    FallerMeetsTile(t);
  }

  lemma NothingAbove(t: Tile)
    requires BelowFaller(t)
    ensures !Occupied([t], t.pose.tilex, t.pose.tiley - 1)
  {
    NotOccupiedByOther(t, 0, 0);
  }

  lemma TileOverlapsFaller(r: Rect)
    requires r == Rect(0, 10, 10, 10)
    ensures r.Clip(Faller).NonEmpty()
  {
    FallerOverlap();
    OverlapIsNonEmpty();
  }

  lemma OverlapIsNonEmpty()
    ensures Rect(0, 10, 10, 1).NonEmpty()
  {
  }

  lemma NotOccupiedByOther(t: Tile, tx: int, ty: int)
    requires t.pose.tilex != tx || t.pose.tiley != ty
    ensures !Occupied([t], tx, ty)
  {
  }

  lemma CoveredTileFaces(t: Tile, above: Tile)
    requires BelowFaller(t)
    requires above.pose.tilex == 0 && above.pose.tiley == 0
    ensures !FacesOf(t, Faller, [above, t]).bottom
  {
    assert [above, t][0] == above;
    assert Occupied([above, t], 0, 0);
  }

  /** What a tile reports to a box falling straight down, given the sides
      the box touches and the overlap: with the box at rest horizontally,
      only the ground below can be reported. */
  lemma FallOnto(t: Tile, m: Rect, tiles: seq<Tile>)
    requires t.pose.aligned && t.pose.rect.Clip(m).NonEmpty()
    ensures Hit(t, m, 1, 0, tiles) ==
      if FacesOf(t, m, tiles).bottom then
        Collision(None, None, Some(t.pose.rect.top), None, if t.kind == Spikes then 5 else 0)
      else NoCollision
  {
  }

  /** A box of size 10 by 10 dropping straight down (dy = 1, dx = 0) onto a
      lone 10 by 10 tile just below it lands on the tile's top, with damage 5
      on spikes and none otherwise. */
  lemma DropOntoLoneTile(t: Tile)
    requires BelowFaller(t)
    ensures Resolve([t], Faller, 1, 0, [t]) ==
      Collision(None, None, Some(10), None, if t.kind == Spikes then 5 else 0)
  {
    ResolveOne(t, Faller, 1, 0, [t]);
    TileOverlapsFaller(t.pose.rect);
    LoneTileFaces(t);
    FallOnto(t, Faller, [t]);
  }

  /** The same drop onto a tile that has another tile right above it reports
      no ground: the covered side is not a side to land on. */
  lemma DropOntoCoveredTile(t: Tile, above: Tile)
    requires BelowFaller(t)
    requires above.pose.tilex == 0 && above.pose.tiley == 0
    ensures Resolve([t], Faller, 1, 0, [above, t]) == NoCollision
  {
    ResolveOne(t, Faller, 1, 0, [above, t]);
    FallerMeetsTile(t);
    CoveredTileFaces(t, above);
    FallOnto(t, Faller, [above, t]);
  }
}
