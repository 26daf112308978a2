/** Rectangles of the modern stack (graphics/geometry.hpp). */
module Geometry {
  import opened Numbers

  datatype Rect = Rect(x: int, y: int, width: int, height: int) {

    predicate IsEmpty() { width <= 0 || height <= 0 }

    function Right(): int { x + width }

    function Bottom(): int { y + height }

    /** The pixels of a rectangle. */
    predicate Contains(px: int, py: int) {
      x <= px < x + width && y <= py < y + height
    }
  }

  /** The rectangle of the pixels two rectangles share, Rect(0, 0, 0, 0) when there are none. */
  function Intersection(a: Rect, b: Rect): (r: Rect)
    ensures forall px, py :: r.Contains(px, py) <==> a.Contains(px, py) && b.Contains(px, py)
    ensures r.IsEmpty() ==> r == Rect(0, 0, 0, 0)
  {
    var x, y := Max(a.x, b.x), Max(a.y, b.y);
    var r := Rect(x, y, Min(a.Right(), b.Right()) - x, Min(a.Bottom(), b.Bottom()) - y);
    if a.IsEmpty() || b.IsEmpty() || r.IsEmpty() then Rect(0, 0, 0, 0) else r
  }

  /** Rect::clip, which cuts the four sides one after the other. */
  method Clip(a: Rect, bounds: Rect) returns (r: Rect)
    ensures r == Intersection(a, bounds)
  {
    if a.IsEmpty() || bounds.IsEmpty() {
      return Rect(0, 0, 0, 0);
    }
    var nx, ny, nw, nh := a.x, a.y, a.width, a.height;
    if nx < bounds.x {
      nw := nw - (bounds.x - nx);
      nx := bounds.x;
    }
    if ny < bounds.y {
      nh := nh - (bounds.y - ny);
      ny := bounds.y;
    }
    var maxX := bounds.x + bounds.width;
    if nx + nw > maxX {
      nw := maxX - nx;
    }
    var maxY := bounds.y + bounds.height;
    if ny + nh > maxY {
      nh := maxY - ny;
    }
    if nw <= 0 || nh <= 0 {
      return Rect(0, 0, 0, 0);
    }
    return Rect(nx, ny, nw, nh);
  }

  /** x & ~1 */
  function EvenDown(x: int): int { x - x % 2 }

  /** (x + 1) & ~1 */
  function EvenUp(x: int): int { x + x % 2 }

  /** The least rectangle with even x edges around a. */
  function Aligned(a: Rect): Rect {
    Rect(EvenDown(a.x), a.y, EvenUp(a.Right()) - EvenDown(a.x), a.height)
  }

  /** The least rectangle around two others. */
  function Hull(a: Rect, b: Rect): Rect {
    var x, y := Min(a.x, b.x), Min(a.y, b.y);
    Rect(x, y, Max(a.Right(), b.Right()) - x, Max(a.Bottom(), b.Bottom()) - y)
  }

  /** Every pixel of a lies in b. */
  ghost predicate Within(a: Rect, b: Rect) {
    forall px, py :: a.Contains(px, py) ==> b.Contains(px, py)
  }

  predicate EvenEdges(a: Rect) { a.x % 2 == 0 && a.Right() % 2 == 0 }

  /** On non-empty rectangles, containment is a matter of the four edges. */
  lemma WithinByEdges(a: Rect, b: Rect)
    requires !a.IsEmpty()
    ensures Within(a, b) <==> b.x <= a.x && a.Right() <= b.Right() && b.y <= a.y && a.Bottom() <= b.Bottom()
  {
    if Within(a, b) {
      assert a.Contains(a.x, a.y) && a.Contains(a.Right() - 1, a.Bottom() - 1);
      assert b.Contains(a.x, a.y) && b.Contains(a.Right() - 1, a.Bottom() - 1);
    }
  }

  lemma AlignedIsLeast(a: Rect, r: Rect)
    requires !a.IsEmpty() && EvenEdges(r) && Within(a, r)
    ensures EvenEdges(Aligned(a)) && Within(a, Aligned(a)) && Within(Aligned(a), r)
  {
    WithinByEdges(a, r);
    WithinByEdges(Aligned(a), r);
  }

  lemma HullIsLeast(a: Rect, b: Rect, r: Rect)
    requires !a.IsEmpty() && !b.IsEmpty() && Within(a, r) && Within(b, r)
    ensures Within(a, Hull(a, b)) && Within(b, Hull(a, b)) && Within(Hull(a, b), r)
  {
    WithinByEdges(a, r);
    WithinByEdges(b, r);
    WithinByEdges(Hull(a, b), r);
  }
}
