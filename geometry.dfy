/**
 * The floor-plan geometry of models/table.py: axis-aligned rectangles, tables
 * widened by the seating precision on every side that has seats, and borders
 * (walls, windows, doors) with a raw and a broadened rectangle.
 *
 * Coordinates grow to the right (`left`) and downwards (`top`).
 */
module Geometry {

  datatype Rect = Rect(left: int, top: int, right: int, bottom: int)

  /** `Rect.overlaps`: the two rectangles share interior area. */
  predicate Overlaps(a: Rect, b: Rect)
  {
    if a.right <= b.left || b.right <= a.left then false
    else if a.bottom <= b.top || b.bottom <= a.top then false
    else true
  }

  /** The unit cell whose top-left corner is (x, y) lies inside `r`. */
  predicate HasCell(r: Rect, x: int, y: int)
  {
    r.left <= x && x + 1 <= r.right && r.top <= y && y + 1 <= r.bottom
  }

  /** `outer` covers `inner`. */
  predicate Contains(outer: Rect, inner: Rect)
  {
    outer.left <= inner.left && outer.top <= inner.top
    && inner.right <= outer.right && inner.bottom <= outer.bottom
  }

  /** The rectangle has positive width and height. */
  predicate Proper(r: Rect)
  {
    r.left < r.right && r.top < r.bottom
  }

  /** On the integer grid of the plan, two proper rectangles overlap exactly
      when some unit cell lies in both of them. (The test alone does not look
      at each rectangle's own extent: a rectangle of zero width straddling
      another one is reported as overlapping it.) */
  lemma OverlapsIffSharedCell(a: Rect, b: Rect)
    requires Proper(a) && Proper(b)
    ensures Overlaps(a, b) <==> exists x, y :: HasCell(a, x, y) && HasCell(b, x, y)
  {
    if Overlaps(a, b) {
      var x := if a.left < b.left then b.left else a.left;
      var y := if a.top < b.top then b.top else a.top;
      assert HasCell(a, x, y) && HasCell(b, x, y);
    }
  }

  /** The overlap test does not depend on the order of its operands. */
  lemma OverlapsSymmetric(a: Rect, b: Rect)
    ensures Overlaps(a, b) == Overlaps(b, a)
  {
  }

  /** Rectangles that only touch along an edge do not overlap. */
  lemma TouchingDoNotOverlap(a: Rect, b: Rect)
    requires a.right == b.left || a.bottom == b.top
    ensures !Overlaps(a, b)
  {
  }

  /** Enlarging both rectangles keeps an overlap. */
  lemma OverlapsMonotone(a: Rect, b: Rect, a': Rect, b': Rect)
    requires Contains(a', a) && Contains(b', b)
    requires Overlaps(a, b)
    ensures Overlaps(a', b')
  {
  }

  /** `RestaurantTable`: a table of the plan, identified by the owner's
      `real_id`, with the number of seats along each of its four sides. */
  datatype Table = Table(
    realId: string,
    left: int, top: int, width: int, height: int,
    seatsTop: int, seatsLeft: int, seatsRight: int, seatsBottom: int)

  function Footprint(t: Table): Rect
  {
    Rect(t.left, t.top, t.left + t.width, t.top + t.height)
  }

  /** The room a side of a table needs for its chairs. */
  function Margin(seats: int, precision: int): int
  {
    if seats > 0 then precision else 0
  }

  /** `RestaurantTable.toRect`: the footprint widened on seated sides. */
  function TableRect(t: Table, precision: int): Rect
  {
    Rect(t.left - Margin(t.seatsLeft, precision),
         t.top - Margin(t.seatsTop, precision),
         t.left + t.width + Margin(t.seatsRight, precision),
         t.top + t.height + Margin(t.seatsBottom, precision))
  }

  /** A table's rectangle reaches exactly `precision` past its footprint on a
      side with seats and not at all on a side without. */
  lemma TableRectMargins(t: Table, precision: int)
    ensures var r, f := TableRect(t, precision), Footprint(t);
      && f.left - r.left == (if t.seatsLeft > 0 then precision else 0)
      && f.top - r.top == (if t.seatsTop > 0 then precision else 0)
      && r.right - f.right == (if t.seatsRight > 0 then precision else 0)
      && r.bottom - f.bottom == (if t.seatsBottom > 0 then precision else 0)
  {
  }

  /** With a non-negative precision a table's rectangle covers its footprint,
      so tables whose footprints collide are always seen to overlap. */
  lemma FootprintCollisionDetected(s: Table, t: Table, precision: int)
    requires precision >= 0
    requires Overlaps(Footprint(s), Footprint(t))
    ensures Overlaps(TableRect(s, precision), TableRect(t, precision))
  {
    OverlapsMonotone(Footprint(s), Footprint(t), TableRect(s, precision), TableRect(t, precision));
  }

  datatype BorderKind = Window | Door | Wall

  /** `RestaurantBorder`: a wall segment starting at (left, top) and running
      `length` to the right or downwards. */
  datatype Border = Border(left: int, top: int, isHorizontal: bool, length: int, kind: BorderKind)

  /** `RestaurantBorder.toRect`: the segment, `precision` thick. */
  function BorderRect(b: Border, precision: int): Rect
  {
    Rect(b.left, b.top,
         b.left + (if b.isHorizontal then b.length else precision),
         b.top + (if b.isHorizontal then precision else b.length))
  }

  /** `RestaurantBorder.toBroadenedRect`: the segment lengthened at both ends. */
  function BroadenedRect(b: Border, precision: int): Rect
  {
    Rect(b.left - (if b.isHorizontal then precision else 0),
         b.top - (if b.isHorizontal then 0 else precision),
         b.left + (if b.isHorizontal then b.length + precision else precision),
         b.top + (if b.isHorizontal then precision else b.length + precision))
  }

  /** The broadened rectangle is the raw one stretched by `precision` at both
      ends along the segment and unchanged across it; so it covers the raw one
      when the precision is not negative. */
  lemma BroadenedExtendsRaw(b: Border, precision: int)
    ensures var r, w := BorderRect(b, precision), BroadenedRect(b, precision);
      if b.isHorizontal then
        w == Rect(r.left - precision, r.top, r.right + precision, r.bottom)
      else
        w == Rect(r.left, r.top - precision, r.right, r.bottom + precision)
    ensures precision >= 0 ==> Contains(BroadenedRect(b, precision), BorderRect(b, precision))
  {
  }

  /** A horizontal wall and a vertical wall that starts where it ends form a
      continuous corner. */
  lemma CornerIsContinuous(h: Border, v: Border, precision: int)
    requires h.isHorizontal && !v.isHorizontal
    requires v.left == h.left + h.length && v.top == h.top
    requires precision > 0 && h.length >= 0 && v.length >= 0
    ensures Overlaps(BroadenedRect(h, precision), BroadenedRect(v, precision))
  {
  }
}
