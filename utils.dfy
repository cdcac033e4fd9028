/** The cross-product helper of pydcel/dcel/utils.py. */
module Utils {
  import opened Points

  /** Twice the signed area of the triangle p1, p2, p3: positive when p3 lies to the
      left of the directed line p1 -> p2, negative when it lies to the right. */
  function SignedArea(p1: Point, p2: Point, p3: Point): real
  {
    (p2.x - p1.x) * (p3.y - p1.y) - (p3.x - p1.x) * (p2.y - p1.y)
  }

  /** A triangle with two coincident corners is degenerate. */
  lemma SignedAreaDegenerate(p: Point, q: Point)
    ensures SignedArea(p, p, q) == 0.0
    ensures SignedArea(p, q, p) == 0.0
    ensures SignedArea(q, p, p) == 0.0
  {
  }

  /** Exchanging the last two corners reverses the orientation. */
  lemma SignedAreaSwap(p1: Point, p2: Point, p3: Point)
    ensures SignedArea(p1, p3, p2) == -SignedArea(p1, p2, p3)
  {
  }

  /** Rotating the corners keeps the orientation. */
  lemma SignedAreaRotate(p1: Point, p2: Point, p3: Point)
    ensures SignedArea(p2, p3, p1) == SignedArea(p1, p2, p3)
  {
  }

  /** Moving all three corners by the same vector keeps the signed area. */
  lemma SignedAreaTranslate(p1: Point, p2: Point, p3: Point, dx: real, dy: real)
    ensures SignedArea(Point(p1.x + dx, p1.y + dy), Point(p2.x + dx, p2.y + dy), Point(p3.x + dx, p3.y + dy))
         == SignedArea(p1, p2, p3)
  {
  }

  /** The value is twice the triangle's area: for a right triangle with legs w and h, whose
      area is w * h / 2, it is w * h. */
  lemma SignedAreaOfRightTriangle(x: real, y: real, w: real, h: real)
    ensures SignedArea(Point(x, y), Point(x + w, y), Point(x, y + h)) == w * h
  {
  }
}
