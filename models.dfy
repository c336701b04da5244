/** The values the purchase resolver works on: rectangles of canvas cells and
    the ownership records ("plots") of the canvas. */
module Models {

  /** An axis-aligned rectangle of canvas cells. The far corner (x2, y2) is
      stored next to the origin and size, as the application's records do. */
  datatype Rect = Rect(x: int, y: int, w: int, h: int, x2: int, y2: int) {

    /** Every rectangle has a positive size and its far corner agrees with
        its origin and size. */
    predicate Valid() {
      w > 0 && h > 0 && x2 == x + w && y2 == y + h
    }

    /** Cell (px, py) lies in the half-open box [x, x2) x [y, y2). */
    predicate Contains(px: int, py: int) {
      x <= px < x2 && y <= py < y2
    }

    /** The number of cells, w * h. */
    function Area(): int {
      w * h
    }
  }

  /** A rectangle from its origin and size, with the far corner derived. */
  function MakeRect(x: int, y: int, w: int, h: int): (r: Rect)
    requires w > 0 && h > 0
    ensures r.Valid()
    ensures r.x == x && r.y == y && r.w == w && r.h == h
  {
    Rect(x, y, w, h, x + w, y + h)
  }

  /** Every cell of `inner` is a cell of `outer` (stated on the bounds). */
  predicate Inside(inner: Rect, outer: Rect) {
    outer.x <= inner.x && inner.x2 <= outer.x2 && outer.y <= inner.y && inner.y2 <= outer.y2
  }

  predicate ValidRects(rs: seq<Rect>) {
    forall k :: 0 <= k < |rs| ==> rs[k].Valid()
  }

  /** One entry of the append-only ownership history. A buyout price of 0
      means the owner does not sell. */
  datatype PlotInfo = PlotInfo(rect: Rect, owner: string, buyoutPricePerPixelInWei: nat)

  predicate ValidPlots(plots: seq<PlotInfo>) {
    forall k :: 0 <= k < |plots| ==> plots[k].rect.Valid()
  }

  /** A valid rectangle lies inside another exactly when all its cells do. */
  lemma InsideMeansCellsInside(inner: Rect, outer: Rect)
    requires inner.Valid() && outer.Valid()
    ensures Inside(inner, outer) <==>
            forall px, py :: inner.Contains(px, py) ==> outer.Contains(px, py)
  {
    if forall px, py :: inner.Contains(px, py) ==> outer.Contains(px, py) {
      assert inner.Contains(inner.x, inner.y);
      assert inner.Contains(inner.x2 - 1, inner.y2 - 1);
    }
  }
}
