/** The integer boxes that stand for pygame's Rect. The three pygame queries the
    game uses are defined here, and these definitions are the model's assumption
    about the library:
    - colliderect: the two boxes overlap strictly on both axes
      (a.left < b.right, b.left < a.right, a.top < b.bottom, b.top < a.bottom),
      which also lets a zero-width or zero-height box touch a box it crosses;
    - collidepoint: the point lies in the half-open box
      [left, left + width) x [top, top + height);
    - clip: the intersection box, or a box of size 0 at the first box's corner
      when they do not overlap; a Rect is false in a test exactly when its
      width or its height is 0. */
module Geometry {

  datatype Rect = Rect(left: int, top: int, width: int, height: int) {
    function Right(): int { left + width }
    function Bottom(): int { top + height }

    /** Rect.__nonzero__: false exactly when the box has no area. */
    predicate NonEmpty() { width != 0 && height != 0 }

    /** Rect.collidepoint(px, py). */
    predicate ContainsPoint(px: int, py: int) {
      left <= px < Right() && top <= py < Bottom()
    }

    /** Rect.colliderect(other). */
    predicate Collides(other: Rect) {
      left < other.Right() && other.left < Right() &&
      top < other.Bottom() && other.top < Bottom()
    }

    /** Rect.clip(other). */
    function Clip(other: Rect): (r: Rect)
      ensures r.width >= 0 && r.height >= 0
      ensures width >= 0 && height >= 0 && other.width >= 0 && other.height >= 0 ==>
        (r.NonEmpty() <==> Collides(other) && width > 0 && height > 0 && other.width > 0 && other.height > 0)
      ensures r.NonEmpty() ==>
        r.left == Max(left, other.left) && r.Right() == Min(Right(), other.Right()) &&
        r.top == Max(top, other.top) && r.Bottom() == Min(Bottom(), other.Bottom())
      ensures !r.NonEmpty() ==> r == Rect(left, top, 0, 0)
    {
      var l := Max(left, other.left);
      var rt := Min(Right(), other.Right());
      var t := Max(top, other.top);
      var b := Min(Bottom(), other.Bottom());
      if l < rt && t < b then Rect(l, t, rt - l, b - t) else Rect(left, top, 0, 0)
    }
  }

  /** A box with a size of at least 0 on each axis, as every box the game builds has. */
  predicate Sized(r: Rect) {
    r.width >= 0 && r.height >= 0
  }

  function Max(a: int, b: int): int { if a < b then b else a }
  function Min(a: int, b: int): int { if a < b then a else b }
}
