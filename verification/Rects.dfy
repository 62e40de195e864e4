/** Integer rectangles and the operations of src/common/rect.c.
    A rectangle stands for the set of pixels it `Has`; every operation is
    specified by what it does to that set. */
module Rects {
  import opened Basics

  datatype Rect = Rect(x: int, y: int, width: int, height: int) {
    function Right(): int { x + width }
    function Bottom(): int { y + height }
    predicate Empty() { width <= 0 || height <= 0 }
    predicate Has(px: int, py: int) { x <= px < Right() && y <= py < Bottom() }
    /** Edge-wise containment; on non-empty rectangles the same as pixel-wise. */
    predicate Within(outer: Rect) {
      outer.x <= x && outer.y <= y && Right() <= outer.Right() && Bottom() <= outer.Bottom()
    }
  }

  /** The smallest rectangle around both. */
  function Hull(a: Rect, b: Rect): Rect {
    var left, top := Min(a.x, b.x), Min(a.y, b.y);
    Rect(left, top, Max(a.Right(), b.Right()) - left, Max(a.Bottom(), b.Bottom()) - top)
  }

  /** The common part; has negative extent when the two lie apart. */
  function Meet(a: Rect, b: Rect): Rect {
    var left, top := Max(a.x, b.x), Max(a.y, b.y);
    Rect(left, top, Min(a.Right(), b.Right()) - left, Min(a.Bottom(), b.Bottom()) - top)
  }

  lemma HullIsLeast(a: Rect, b: Rect, other: Rect)
    ensures a.Within(Hull(a, b)) && b.Within(Hull(a, b))
    ensures a.Within(other) && b.Within(other) <==> Hull(a, b).Within(other)
  {
  }

  lemma MeetIsIntersection(a: Rect, b: Rect, px: int, py: int)
    ensures Meet(a, b).Has(px, py) <==> a.Has(px, py) && b.Has(px, py)
  {
  }

  /** guac_common_rect_extend. */
  method Extend(rect: Rect, min: Rect) returns (r: Rect)
    ensures r == Hull(rect, min)
    ensures forall px, py :: rect.Has(px, py) || min.Has(px, py) ==> r.Has(px, py)
  {
    var left, top := rect.x, rect.y;
    var right, bottom := left + rect.width, top + rect.height;
    if min.x < left { left := min.x; }
    if min.y < top { top := min.y; }
    if min.x + min.width > right { right := min.x + min.width; }
    if min.y + min.height > bottom { bottom := min.y + min.height; }
    r := Rect(left, top, right - left, bottom - top);
  }

  /** guac_common_rect_constrain. */
  method Constrain(rect: Rect, max: Rect) returns (r: Rect)
    ensures r == Meet(rect, max)
    ensures forall px, py :: r.Has(px, py) <==> rect.Has(px, py) && max.Has(px, py)
  {
    var left, top := rect.x, rect.y;
    var right, bottom := left + rect.width, top + rect.height;
    if max.x > left { left := max.x; }
    if max.y > top { top := max.y; }
    if max.x + max.width < right { right := max.x + max.width; }
    if max.y + max.height < bottom { bottom := max.y + max.height; }
    r := Rect(left, top, right - left, bottom - top);
  }

  /** C's division and remainder, which truncate toward zero. */
  function CDiv(a: int, b: int): int
    requires b > 0
  {
    if a >= 0 then a / b else -((-a) / b)
  }

  function CMod(a: int, b: int): int
    requires b > 0
  {
    a - CDiv(a, b) * b
  }

  /** Where an edge that has been grown begins and ends. */
  datatype Span = Span(lo: int, hi: int)

  /** The span [lo, lo + size) grown by `extra`, half of it before, and moved into
      [maxLo, maxHi), or cut to that if it is too long. */
  function Fitted(lo: int, size: int, extra: int, maxLo: int, maxHi: int): Span {
    var start, length := lo - CDiv(extra, 2), size + extra;
    if start + length > maxHi then Span(Max(maxLo, maxHi - length), maxHi)
    else if start < maxLo then Span(maxLo, Min(maxHi, maxLo + length))
    else Span(start, start + length)
  }

  /** One axis of the grid expansion: grow [lo, lo + size) by `extra`, then
      slide it back inside [maxLo, maxHi) and clamp what still sticks out. */
  method FitAxis(lo: int, size: int, extra: int, maxLo: int, maxHi: int) returns (a: int, b: int)
    ensures Span(a, b) == Fitted(lo, size, extra, maxLo, maxHi)
  {
    a := lo - CDiv(extra, 2);
    b := a + size + extra;
    if b > maxHi {
      var d := b - maxHi;
      b := b - d;
      a := a - d;
      if a < maxLo { a := maxLo; }
    } else if a < maxLo {
      var d := maxLo - a;
      a := a + d;
      b := b + d;
      if b > maxHi { b := maxHi; }
    }
  }

  /** The size an edge is expanded to: the next multiple of the cell size, a
      whole extra cell when it already is one. */
  function GridSize(cell: int, size: int): int
    requires cell > 1
  {
    size + (cell - CMod(size, cell))
  }

  lemma GridSizeIsNextMultiple(cell: int, size: int)
    requires cell > 1 && size >= 0
    ensures GridSize(cell, size) == (size / cell + 1) * cell
    ensures size < GridSize(cell, size) <= size + cell
  {
    assert size == (size / cell) * cell + size % cell;
    assert (size / cell + 1) * cell == (size / cell) * cell + cell;
  }

  /** The rectangle grown to the grid within its bounding area. */
  function Grown(cell: int, rect: Rect, max: Rect): Rect {
    if cell <= 1 then rect
    else
      var h := Fitted(rect.x, rect.width, cell - CMod(rect.width, cell), max.x, max.Right());
      var v := Fitted(rect.y, rect.height, cell - CMod(rect.height, cell), max.y, max.Bottom());
      Rect(h.lo, v.lo, h.hi - h.lo, v.hi - v.lo)
  }

  lemma GrownBy(cell: int, size: int)
    requires cell > 1 && size >= 0
    ensures cell - CMod(size, cell) > 0 && GridSize(cell, size) == size + (cell - CMod(size, cell))
  {
    GridSizeIsNextMultiple(cell, size);
  }

  lemma FittedContains(lo: int, size: int, extra: int, maxLo: int, maxHi: int)
    requires maxLo <= lo && lo + size <= maxHi && extra >= 0 && size >= 0
    ensures var f := Fitted(lo, size, extra, maxLo, maxHi);
            maxLo <= f.lo <= lo && lo + size <= f.hi <= maxHi && f.hi - f.lo == Min(size + extra, maxHi - maxLo)
  {
  }

  lemma GrownAxis(cell: int, lo: int, size: int, maxLo: int, maxSize: int)
    requires cell > 1 && maxLo <= lo && lo + size <= maxLo + maxSize && size >= 0
    ensures var f := Fitted(lo, size, cell - CMod(size, cell), maxLo, maxLo + maxSize);
            maxLo <= f.lo <= lo && lo + size <= f.hi <= maxLo + maxSize && f.hi - f.lo == Min(GridSize(cell, size), maxSize)
  {
    hide Fitted, CMod, GridSize;
    GrownBy(cell, size);
    FittedContains(lo, size, cell - CMod(size, cell), maxLo, maxLo + maxSize);
  }

  /** The grown rectangle contains the old one, stays inside the bounding area, and
      each edge is a whole number of cells unless the area is smaller than that. */
  lemma GrownContains(cell: int, rect: Rect, max: Rect)
    requires cell > 1 && rect.Within(max) && rect.width >= 0 && rect.height >= 0
    ensures var r := Grown(cell, rect, max);
            && rect.Within(r) && r.Within(max)
            && r.width == Min(GridSize(cell, rect.width), max.width)
            && r.height == Min(GridSize(cell, rect.height), max.height)
  {
    hide Fitted, CMod, GridSize, Min;
    GrownAxis(cell, rect.x, rect.width, max.x, max.width);
    GrownAxis(cell, rect.y, rect.height, max.y, max.height);
  }

  /** guac_common_rect_expand_to_grid. */
  method ExpandToGrid(cell: int, rect: Rect, max: Rect) returns (status: int, r: Rect)
    ensures status == (if cell <= 0 then -1 else 0)
    ensures r == Grown(cell, rect, max) && (cell <= 1 ==> r == rect)
    ensures cell > 1 && rect.Within(max) && rect.width >= 0 && rect.height >= 0 ==>
              && rect.Within(r) && r.Within(max)
              && r.width == Min(GridSize(cell, rect.width), max.width)
              && r.height == Min(GridSize(cell, rect.height), max.height)
  {
    hide CMod, CDiv, Fitted, GridSize;
    if cell <= 0 {
      return -1, rect;
    }
    if cell == 1 {
      return 0, rect;
    }
    var dw := cell - CMod(rect.width, cell);
    var dh := cell - CMod(rect.height, cell);
    var left, right := FitAxis(rect.x, rect.width, dw, max.x, max.x + max.width);
    var top, bottom := FitAxis(rect.y, rect.height, dh, max.y, max.y + max.height);
    r := Rect(left, top, right - left, bottom - top);
    if rect.Within(max) && rect.width >= 0 && rect.height >= 0 {
      GrownContains(cell, rect, max);
    }
    status := 0;
  }

  /** guac_common_rect_intersects. Touching edges count as an intersection. */
  function Intersects(rect: Rect, other: Rect): (r: int)
    ensures rect.width >= 0 && rect.height >= 0 && other.width >= 0 && other.height >= 0 ==>
              (r == 0 <==> Meet(rect, other).width < 0 || Meet(rect, other).height < 0)
    ensures r == 2 <==> r != 0 && rect.Within(other)
    ensures r in {0, 1, 2}
  {
    if other.x + other.width < rect.x || rect.x + rect.width < other.x ||
       other.y + other.height < rect.y || rect.y + rect.height < other.y then 0
    else if other.x <= rect.x && other.x + other.width >= rect.x + rect.width &&
            other.y <= rect.y && other.y + other.height >= rect.y + rect.height then 2
    else 1
  }

  predicate Disjoint(a: Rect, b: Rect) {
    a.Right() <= b.x || b.Right() <= a.x || a.Bottom() <= b.y || b.Bottom() <= a.y
  }

  /** How many sides of the rectangle stick out of the hole. */
  function Overhang(rect: Rect, hole: Rect): nat {
    (if rect.y < hole.y then 1 else 0) + (if rect.x < hole.x then 1 else 0) +
    (if rect.Bottom() > hole.Bottom() then 1 else 0) + (if rect.Right() > hole.Right() then 1 else 0)
  }

  predicate Area(r: Rect) { r.width >= 0 && r.height >= 0 }

  /** guac_common_rect_clip_and_split: cut off one overhanging side. */
  method ClipAndSplit(rect: Rect, hole: Rect) returns (found: bool, rest: Rect, split: Rect)
    ensures found <==> Intersects(rect, hole) != 0 && Overhang(rect, hole) > 0
    ensures !found ==> rest == rect
    ensures found ==> Overhang(rest, hole) == Overhang(rect, hole) - 1
    ensures found && Area(rect) && Area(hole) ==>
              && Area(rest) && Area(split)
              && Disjoint(split, hole) && Disjoint(split, rest)
              && split.Within(rect) && rest.Within(rect)
              && (forall px, py :: rect.Has(px, py) ==> rest.Has(px, py) || split.Has(px, py))
              && Intersects(rest, hole) != 0 && Meet(rest, hole) == Meet(rect, hole)
  {
    rest, split, found := rect, rect, false;
    if Intersects(rect, hole) == 0 {
      return;
    }
    if rect.y < hole.y {
      split := Rect(rect.x, rect.y, rect.width, hole.y - rect.y);
      rest := Rect(rect.x, hole.y, rect.width, rect.Bottom() - hole.y);
      found := true;
    } else if rect.x < hole.x {
      split := Rect(rect.x, rect.y, hole.x - rect.x, rect.height);
      rest := Rect(hole.x, rect.y, rect.Right() - hole.x, rect.height);
      found := true;
    } else if rect.Bottom() > hole.Bottom() {
      split := Rect(rect.x, hole.Bottom(), rect.width, rect.Bottom() - hole.Bottom());
      rest := Rect(rect.x, rect.y, rect.width, hole.Bottom() - rect.y);
      found := true;
    } else if rect.Right() > hole.Right() {
      split := Rect(hole.Right(), rect.y, rect.Right() - hole.Right(), rect.height);
      rest := Rect(rect.x, rect.y, hole.Right() - rect.x, rect.height);
      found := true;
    }
  }

  ghost predicate SomeHas(pieces: seq<Rect>, px: int, py: int) {
    exists k :: 0 <= k < |pieces| && pieces[k].Has(px, py)
  }

  /** Calls clip-and-split until it reports nothing left to split, as its
      documentation asks (rect.h): at most four pieces, and when the rectangles
      meet, the pieces are pairwise disjoint and tile the rectangle minus the
      hole, while what is left of the rectangle is its part inside the hole. */
  method SplitAround(rect: Rect, hole: Rect) returns (pieces: seq<Rect>, rest: Rect)
    ensures |pieces| <= 4
    ensures Intersects(rect, hole) == 0 ==> pieces == [] && rest == rect
    ensures Intersects(rect, hole) != 0 && Area(rect) && Area(hole) ==>
              && rest == Meet(rect, hole)
              && |pieces| == Overhang(rect, hole)
              && (forall i, j :: 0 <= i < j < |pieces| ==> Disjoint(pieces[i], pieces[j]))
              && (forall px, py :: SomeHas(pieces, px, py) <==> rect.Has(px, py) && !hole.Has(px, py))
  {
    ghost var proper := Intersects(rect, hole) != 0 && Area(rect) && Area(hole);
    pieces, rest := [], rect;
    while true
      invariant |pieces| + Overhang(rest, hole) == Overhang(rect, hole)
      invariant Intersects(rect, hole) == 0 ==> pieces == [] && rest == rect
      invariant proper ==> Area(rest) && Intersects(rest, hole) != 0 && Meet(rest, hole) == Meet(rect, hole)
      invariant proper ==> rest.Within(rect)
      invariant proper ==> forall i :: 0 <= i < |pieces| ==>
        Disjoint(pieces[i], hole) && Disjoint(pieces[i], rest) && pieces[i].Within(rect) && Area(pieces[i])
      invariant proper ==> forall i, j :: 0 <= i < j < |pieces| ==> Disjoint(pieces[i], pieces[j])
      invariant proper ==> forall px, py :: rect.Has(px, py) ==> rest.Has(px, py) || SomeHas(pieces, px, py)
      decreases Overhang(rest, hole)
    {
      var found, rest', split := ClipAndSplit(rest, hole);
      if !found {
        return;
      }
      ghost var before := pieces;
      pieces := pieces + [split];
      if proper {
        assert pieces[|before|] == split;
        forall px, py | rect.Has(px, py)
          ensures rest'.Has(px, py) || SomeHas(pieces, px, py)
        {
          if SomeHas(before, px, py) {
            var k :| 0 <= k < |before| && before[k].Has(px, py);
            assert pieces[k].Has(px, py);
          }
        }
      }
      rest := rest';
    }
  }
}
