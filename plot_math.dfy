/** The geometry helpers the purchase resolver calls: an overlap test, the
    overlap of two rectangles, the subtraction of a hole from a rectangle and
    a check that no two rectangles of a list overlap. Each is specified by the
    cells it speaks about; bounds are half-open, [x, x2) x [y, y2). */
module PlotMath {
  import opened Models

  /** The two rectangles have a cell in common. */
  ghost predicate ShareCell(a: Rect, b: Rect) {
    exists px, py :: a.Contains(px, py) && b.Contains(px, py)
  }

  /** The cell (px, py) lies in some rectangle of `rs`. */
  ghost predicate InAny(rs: seq<Rect>, px: int, py: int) {
    exists k :: 0 <= k < |rs| && rs[k].Contains(px, py)
  }

  /** Whether the two rectangles overlap, decided on their bounds. */
  predicate DoRectanglesOverlap(a: Rect, b: Rect) {
    a.x < b.x2 && b.x < a.x2 && a.y < b.y2 && b.y < a.y2
  }

  /** No two rectangles at different positions of `rs` overlap. */
  predicate PairwiseDisjoint(rs: seq<Rect>) {
    forall a, b :: 0 <= a < b < |rs| ==> !DoRectanglesOverlap(rs[a], rs[b])
  }

  function Max(a: int, b: int): int { if a < b then b else a }

  function Min(a: int, b: int): int { if a < b then a else b }

  /** The bound test agrees with the cell semantics: two valid rectangles
      overlap exactly when some cell lies in both. */
  lemma OverlapIsSharedCell(a: Rect, b: Rect)
    requires a.Valid() && b.Valid()
    ensures DoRectanglesOverlap(a, b) <==> ShareCell(a, b)
  {
    if DoRectanglesOverlap(a, b) {
      var px, py := Max(a.x, b.x), Max(a.y, b.y);
      assert a.Contains(px, py) && b.Contains(px, py);
    }
  }

  /** The overlap of two overlapping rectangles: a valid rectangle whose
      cells are exactly the cells the two have in common. */
  function ComputeRectOverlap(a: Rect, b: Rect): (r: Rect)
    requires a.Valid() && b.Valid() && DoRectanglesOverlap(a, b)
    ensures r.Valid() && Inside(r, a) && Inside(r, b)
    ensures forall px, py :: r.Contains(px, py) <==> a.Contains(px, py) && b.Contains(px, py)
    ensures Inside(b, a) ==> r == b
  {
    var x, y := Max(a.x, b.x), Max(a.y, b.y);
    var x2, y2 := Min(a.x2, b.x2), Min(a.y2, b.y2);
    MakeRect(x, y, x2 - x, y2 - y)
  }

  /** `base` with `hole` cut out, as at most four pieces: the full-width band
      above the hole, the full-width band below it, and the parts left and
      right of it within its own rows. Empty pieces are left out. The pieces
      are valid, lie in `base`, miss the hole and each other, and together
      with the hole they cover exactly the cells of `base`. */
  function SubtractRectangles(base: Rect, hole: Rect): (pieces: seq<Rect>)
    requires base.Valid() && hole.Valid() && Inside(hole, base)
    ensures |pieces| <= 4 && ValidRects(pieces) && PairwiseDisjoint(pieces)
    ensures forall k :: 0 <= k < |pieces| ==>
              Inside(pieces[k], base) && !DoRectanglesOverlap(pieces[k], hole)
    ensures forall px, py :: base.Contains(px, py) <==> hole.Contains(px, py) || InAny(pieces, px, py)
  {
    var above := if base.y < hole.y then [MakeRect(base.x, base.y, base.w, hole.y - base.y)] else [];
    var below := if hole.y2 < base.y2 then [MakeRect(base.x, hole.y2, base.w, base.y2 - hole.y2)] else [];
    var left := if base.x < hole.x then [MakeRect(base.x, hole.y, hole.x - base.x, hole.h)] else [];
    var right := if hole.x2 < base.x2 then [MakeRect(hole.x2, hole.y, base.x2 - hole.x2, hole.h)] else [];
    var pieces := above + below + left + right;
    assert PieceLists(base, hole, above, below, left, right);
    SubtractionPieces(base, hole, above, below, left, right);
    SubtractionCovers(base, hole, above, below, left, right);
    pieces
  }

  /** The four candidate lists of SubtractRectangles: each is empty or holds
      one piece. */
  ghost predicate PieceLists(base: Rect, hole: Rect, above: seq<Rect>, below: seq<Rect>, left: seq<Rect>, right: seq<Rect>) {
    base.Valid() && hole.Valid() && Inside(hole, base) &&
    above == (if base.y < hole.y then [MakeRect(base.x, base.y, base.w, hole.y - base.y)] else []) &&
    below == (if hole.y2 < base.y2 then [MakeRect(base.x, hole.y2, base.w, base.y2 - hole.y2)] else []) &&
    left == (if base.x < hole.x then [MakeRect(base.x, hole.y, hole.x - base.x, hole.h)] else []) &&
    right == (if hole.x2 < base.x2 then [MakeRect(hole.x2, hole.y, base.x2 - hole.x2, hole.h)] else [])
  }

  /** The pieces of SubtractRectangles are valid, lie in the base, miss the
      hole and miss each other. */
  lemma SubtractionPieces(base: Rect, hole: Rect, above: seq<Rect>, below: seq<Rect>, left: seq<Rect>, right: seq<Rect>)
    requires PieceLists(base, hole, above, below, left, right)
    ensures var pieces := above + below + left + right;
            |pieces| <= 4 && ValidRects(pieces) && PairwiseDisjoint(pieces) &&
            forall k :: 0 <= k < |pieces| ==> Inside(pieces[k], base) && !DoRectanglesOverlap(pieces[k], hole)
  {
    var ab := above + below;
    var abl := ab + left;
    assert Fits(above, base, hole) && Fits(below, base, hole) && Fits(left, base, hole) && Fits(right, base, hole);
    FitsConcat(above, below, base, hole);
    FitsConcat(ab, left, base, hole);
    FitsConcat(abl, right, base, hole);
    PieceListsCross(base, hole, above, below, left, right);
    PairwiseConcat(above, below);
    CrossConcat(above, below, left);
    PairwiseConcat(ab, left);
    CrossConcat(above, below, right);
    CrossConcat(ab, left, right);
    PairwiseConcat(abl, right);
  }

  /** The four lists of pieces are mutually disjoint. */
  lemma PieceListsCross(base: Rect, hole: Rect, above: seq<Rect>, below: seq<Rect>, left: seq<Rect>, right: seq<Rect>)
    requires PieceLists(base, hole, above, below, left, right)
    ensures CrossDisjoint(above, below) && CrossDisjoint(above, left) && CrossDisjoint(above, right)
    ensures CrossDisjoint(below, left) && CrossDisjoint(below, right) && CrossDisjoint(left, right)
  {
  }

  /** Every rectangle of `rs` is valid, lies in `base` and misses `hole`. */
  predicate Fits(rs: seq<Rect>, base: Rect, hole: Rect) {
    forall k :: 0 <= k < |rs| ==> rs[k].Valid() && Inside(rs[k], base) && !DoRectanglesOverlap(rs[k], hole)
  }

  lemma FitsConcat(a: seq<Rect>, b: seq<Rect>, base: Rect, hole: Rect)
    requires Fits(a, base, hole) && Fits(b, base, hole)
    ensures Fits(a + b, base, hole)
  {
    var ab := a + b;
    forall k | 0 <= k < |ab|
      ensures ab[k].Valid() && Inside(ab[k], base) && !DoRectanglesOverlap(ab[k], hole)
    {
      if k < |a| { assert ab[k] == a[k]; } else { assert ab[k] == b[k - |a|]; }
    }
  }

  lemma CrossConcat(a: seq<Rect>, b: seq<Rect>, c: seq<Rect>)
    requires CrossDisjoint(a, c) && CrossDisjoint(b, c)
    ensures CrossDisjoint(a + b, c)
  {
    var ab := a + b;
    forall i, j | 0 <= i < |ab| && 0 <= j < |c|
      ensures !DoRectanglesOverlap(ab[i], c[j])
    {
      if i < |a| { assert ab[i] == a[i]; } else { assert ab[i] == b[i - |a|]; }
    }
  }

  /** Together with the hole, the pieces of SubtractRectangles cover exactly
      the cells of the base. */
  lemma SubtractionCovers(base: Rect, hole: Rect, above: seq<Rect>, below: seq<Rect>, left: seq<Rect>, right: seq<Rect>)
    requires PieceLists(base, hole, above, below, left, right)
    ensures forall px, py :: base.Contains(px, py) <==> hole.Contains(px, py) || InAny(above + below + left + right, px, py)
  {
    forall px, py
      ensures base.Contains(px, py) <==> hole.Contains(px, py) || InAny(above + below + left + right, px, py)
    {
      SubtractionCoversCell(base, hole, above, below, left, right, px, py);
    }
  }

  lemma SubtractionCoversCell(base: Rect, hole: Rect, above: seq<Rect>, below: seq<Rect>, left: seq<Rect>, right: seq<Rect>, px: int, py: int)
    requires PieceLists(base, hole, above, below, left, right)
    ensures base.Contains(px, py) <==> hole.Contains(px, py) || InAny(above + below + left + right, px, py)
  {
    var ab := above + below;
    var abl := ab + left;
    InAnyConcat(above, below, px, py);
    InAnyConcat(ab, left, px, py);
    InAnyConcat(abl, right, px, py);
    if base.Contains(px, py) && !hole.Contains(px, py) {
      if py < hole.y {
        assert above[0].Contains(px, py);
      } else if hole.y2 <= py {
        assert below[0].Contains(px, py);
      } else if px < hole.x {
        assert left[0].Contains(px, py);
      } else {
        assert right[0].Contains(px, py);
      }
    }
  }

  /** Every rectangle of `a` misses every rectangle of `b`. */
  predicate CrossDisjoint(a: seq<Rect>, b: seq<Rect>) {
    forall i, j :: 0 <= i < |a| && 0 <= j < |b| ==> !DoRectanglesOverlap(a[i], b[j])
  }

  lemma PairwiseConcat(a: seq<Rect>, b: seq<Rect>)
    ensures PairwiseDisjoint(a + b) <==> PairwiseDisjoint(a) && PairwiseDisjoint(b) && CrossDisjoint(a, b)
  {
    var ab := a + b;
    if PairwiseDisjoint(a) && PairwiseDisjoint(b) && CrossDisjoint(a, b) {
      forall i, j | 0 <= i < j < |ab| ensures !DoRectanglesOverlap(ab[i], ab[j]) {
        if j < |a| {
          assert ab[i] == a[i] && ab[j] == a[j];
        } else if i < |a| {
          assert ab[i] == a[i] && ab[j] == b[j - |a|];
        } else {
          assert ab[i] == b[i - |a|] && ab[j] == b[j - |a|];
        }
      }
    }
    if PairwiseDisjoint(ab) {
      forall i, j | 0 <= i < j < |a| ensures !DoRectanglesOverlap(a[i], a[j]) {
        assert ab[i] == a[i] && ab[j] == a[j];
      }
      forall i, j | 0 <= i < j < |b| ensures !DoRectanglesOverlap(b[i], b[j]) {
        assert ab[|a| + i] == b[i] && ab[|a| + j] == b[j];
      }
      forall i, j | 0 <= i < |a| && 0 <= j < |b| ensures !DoRectanglesOverlap(a[i], b[j]) {
        assert ab[i] == a[i] && ab[|a| + j] == b[j];
      }
    }
  }

  lemma InAnyConcat(a: seq<Rect>, b: seq<Rect>, px: int, py: int)
    ensures InAny(a + b, px, py) <==> InAny(a, px, py) || InAny(b, px, py)
  {
    var ab := a + b;
    if InAny(ab, px, py) {
      var k :| 0 <= k < |ab| && ab[k].Contains(px, py);
      if k < |a| {
        assert a[k] == ab[k];
      } else {
        assert b[k - |a|] == ab[k];
      }
    }
    if InAny(a, px, py) {
      var k :| 0 <= k < |a| && a[k].Contains(px, py);
      assert ab[k] == a[k];
    }
    if InAny(b, px, py) {
      var k :| 0 <= k < |b| && b[k].Contains(px, py);
      assert ab[|a| + k] == b[k];
    }
  }

  /** Whether any two rectangles of the list overlap. */
  function DoAnyOverlap(rs: seq<Rect>): (r: bool)
    ensures r <==> !PairwiseDisjoint(rs)
  {
    if |rs| == 0 then false
    else (exists k :: 1 <= k < |rs| && DoRectanglesOverlap(rs[0], rs[k])) || DoAnyOverlap(rs[1..])
  }
}
