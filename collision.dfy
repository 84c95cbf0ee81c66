/** The axis-aligned bounding-box test `is_collision` (game.py:63-66). */
module Collision {

  /** Boxes of side `s1` at (x1, y1) and of side `s2` at (x2, y2) overlap:
      all four comparisons are strict. */
  predicate IsCollision(x1: int, y1: int, s1: int, x2: int, y2: int, s2: int)
  {
    x1 < x2 + s2 && x1 + s1 > x2 && y1 < y2 + s2 && y1 + s1 > y2
  }

  /** The unit cell whose top-left corner is (cx, cy) lies inside the box of
      side `s` at (x, y). */
  predicate CellInBox(cx: int, cy: int, x: int, y: int, s: int)
  {
    x <= cx < x + s && y <= cy < y + s
  }

  /** The answer does not depend on which object is passed first. */
  lemma CollisionSymmetric(x1: int, y1: int, s1: int, x2: int, y2: int, s2: int)
    ensures IsCollision(x1, y1, s1, x2, y2, s2) == IsCollision(x2, y2, s2, x1, y1, s1)
  {
  }

  /** Boxes that only share an edge or a corner do not collide. */
  lemma TouchingBoxesDoNotCollide(x1: int, y1: int, s1: int, x2: int, y2: int, s2: int)
    requires x1 + s1 == x2 || x2 + s2 == x1 || y1 + s1 == y2 || y2 + s2 == y1
    ensures !IsCollision(x1, y1, s1, x2, y2, s2)
  {
  }

  /** For boxes of positive size on the integer grid, colliding is the same as
      sharing at least one unit cell: the strict test counts overlapping area,
      never a shared boundary. */
  lemma CollisionIffSharedCell(x1: int, y1: int, s1: int, x2: int, y2: int, s2: int)
    requires s1 > 0 && s2 > 0
    ensures IsCollision(x1, y1, s1, x2, y2, s2) <==>
            exists cx, cy :: CellInBox(cx, cy, x1, y1, s1) && CellInBox(cx, cy, x2, y2, s2)
  {
    if IsCollision(x1, y1, s1, x2, y2, s2) {
      var cx := if x1 < x2 then x2 else x1;
      var cy := if y1 < y2 then y2 else y1;
      assert CellInBox(cx, cy, x1, y1, s1) && CellInBox(cx, cy, x2, y2, s2);
    }
  }
}
