/** Axis-aligned box overlap, as used for bullet/fighter and fighter/player contact. */
module Collision {

  /** An integer box: the truncated position and the size of an entity. */
  datatype Box = Box(x: int, y: int, w: int, h: int)

  function Max(a: int, b: int): int { if a > b then a else b }

  function Min(a: int, b: int): int { if a < b then a else b }

  /** The game's overlap test: the two boxes' open intervals intersect on both axes.
      Written with MAX/MIN as the game writes it; the contract gives the
      equivalent edge-by-edge reading, where both boxes must also have a
      positive size. */
  function Collides(a: Box, b: Box): (r: bool)
    ensures r <==> 0 < a.w && 0 < b.w && 0 < a.h && 0 < b.h &&
                   a.x < b.x + b.w && b.x < a.x + a.w && a.y < b.y + b.h && b.y < a.y + a.h
  {
    Max(a.x, b.x) < Min(a.x + a.w, b.x + b.w) && Max(a.y, b.y) < Min(a.y + a.h, b.y + b.h)
  }

  /** The test does not depend on the order of its two boxes. */
  lemma CollidesSymmetric(a: Box, b: Box)
    ensures Collides(a, b) == Collides(b, a)
  {
  }

  /** Boxes that only touch along an edge (one ends where the other begins) never overlap. */
  lemma TouchingNeverCollides(a: Box, b: Box)
    requires a.x + a.w <= b.x || b.x + b.w <= a.x || a.y + a.h <= b.y || b.y + b.h <= a.y
    ensures !Collides(a, b)
  {
  }

  /** A box of zero (or negative) width or height overlaps nothing, itself included. */
  lemma DegenerateNeverCollides(a: Box, b: Box)
    requires a.w <= 0 || a.h <= 0
    ensures !Collides(a, b) && !Collides(b, a)
  {
  }
}
