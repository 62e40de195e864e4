/** In-place pixel loops of src/common/surface.c: set, put, fill through a mask,
    and transfer between possibly overlapping areas. */
module Pixels {
  import opened Basics
  import opened Rects
  import opened Bits
  import opened Operators

  // ---------------------------------------------------------------- extents

  /** Smallest and largest loop coordinates seen to change. */
  datatype Extent = Extent(minX: int, minY: int, maxX: int, maxY: int)

  function Include(e: Extent, x: int, y: int): Extent {
    Extent(Min(e.minX, x), Min(e.minY, y), Max(e.maxX, x), Max(e.maxY, y))
  }

  /** Loop coordinates of a pixel when the area is walked from its upper left
      corner (forward) or from its lower right corner (backward). */
  function LoopX(rect: Rect, forward: bool, px: int): int {
    if forward then px - rect.x else rect.Right() - 1 - px
  }

  function LoopY(rect: Rect, forward: bool, py: int): int {
    if forward then py - rect.y else rect.Bottom() - 1 - py
  }

  type Points = set<(int, int)>

  ghost predicate InRect(changed: Points, rect: Rect) {
    forall p :: p in changed ==> rect.Has(p.0, p.1)
  }

  /** The extent is the initial one, or the exact bounding box of the changed
      pixels in loop coordinates. */
  ghost predicate Tracks(e: Extent, start: Extent, rect: Rect, forward: bool, changed: Points) {
    && (changed == {} ==> e == start)
    && (forall p :: p in changed ==> e.minX <= LoopX(rect, forward, p.0) <= e.maxX)
    && (forall p :: p in changed ==> e.minY <= LoopY(rect, forward, p.1) <= e.maxY)
    && (changed != {} ==>
         && (exists p :: p in changed && LoopX(rect, forward, p.0) == e.minX)
         && (exists p :: p in changed && LoopX(rect, forward, p.0) == e.maxX)
         && (exists p :: p in changed && LoopY(rect, forward, p.1) == e.minY)
         && (exists p :: p in changed && LoopY(rect, forward, p.1) == e.maxY))
  }

  /** An initial extent every real coordinate improves on. */
  predicate Neutral(start: Extent, rect: Rect) {
    start.minX >= rect.width - 1 && start.minY >= rect.height - 1 && start.maxX == 0 && start.maxY == 0
  }

  lemma IncludeTracks(e: Extent, start: Extent, rect: Rect, forward: bool, changed: Points, px: int, py: int)
    requires Neutral(start, rect) && rect.Has(px, py) && InRect(changed, rect)
    requires Tracks(e, start, rect, forward, changed)
    ensures Tracks(Include(e, LoopX(rect, forward, px), LoopY(rect, forward, py)), start, rect, forward,
                   changed + {(px, py)})
  {
  }

  /** The exact bounding box of the changed pixels. */
  ghost predicate IsChangeBox(box: Rect, changed: Points) {
    && !box.Empty() && InRect(changed, box)
    && (exists p :: p in changed && p.0 == box.x)
    && (exists p :: p in changed && p.0 == box.Right() - 1)
    && (exists p :: p in changed && p.1 == box.y)
    && (exists p :: p in changed && p.1 == box.Bottom() - 1)
  }

  /** "Restrict destination rect to only updated pixels": an area reset to
      zero size keeps its old corner. */
  function Restrict(rect: Rect, e: Extent): Rect {
    if e.maxX >= e.minX && e.maxY >= e.minY then
      Rect(rect.x + e.minX, rect.y + e.minY, e.maxX - e.minX + 1, e.maxY - e.minY + 1)
    else
      Rect(rect.x, rect.y, 0, 0)
  }

  function Flip(rect: Rect, e: Extent): Extent {
    Extent(rect.width - 1 - e.maxX, rect.height - 1 - e.maxY, rect.width - 1 - e.minX, rect.height - 1 - e.minY)
  }

  lemma FlipTracks(e: Extent, start: Extent, rect: Rect, changed: Points)
    requires Tracks(e, start, rect, false, changed)
    ensures Tracks(Flip(rect, e), Flip(rect, start), rect, true, changed)
  {
  }

  lemma StartTracks(start: Extent, rect: Rect, forward: bool)
    ensures Tracks(start, start, rect, forward, {})
  {
  }

  lemma RestrictIsChangeBox(e: Extent, start: Extent, rect: Rect, changed: Points)
    requires Tracks(e, start, rect, true, changed) && InRect(changed, rect)
    ensures changed != {} ==> IsChangeBox(Restrict(rect, e), changed) && Restrict(rect, e).Within(rect)
    ensures InRect(changed, Restrict(rect, e))
    ensures changed == {} ==> e == start
  {
  }

  // ---------------------------------------------------------------- loops

  /** The area lies inside the buffer. */
  predicate Fits<C>(rect: Rect, buffer: array2<C>) {
    rect.Within(Rect(0, 0, buffer.Length1, buffer.Length0))
  }

  /** Whether a transfer runs from the upper left corner (surface.c:1125): only
      when the buffers differ or the destination comes before the source. */
  predicate TransferForward(same: bool, rect: Rect, sx: int, sy: int) {
    !same || rect.y < sy || (rect.y == sy && rect.x < sx)
  }

  /** One row of a transfer, left to right or right to left. */
  method TransferRow<C(==)>(src: array2<C>, srcRow: int, sx: int, f: (C, C) -> C, dst: array2<C>, dstRow: int,
                            rect: Rect, forward: bool, y: int, e0: Extent,
                            ghost start: Extent, ghost changed0: Points)
    returns (e: Extent, ghost changed: Points)
    requires !rect.Empty() && Fits(rect, dst) && rect.y <= dstRow < rect.Bottom()
    requires Fits(Rect(sx, srcRow, rect.width, 1), src)
    requires y == LoopY(rect, forward, dstRow)
    requires src == dst && srcRow == dstRow ==> if forward then rect.x <= sx else sx <= rect.x
    requires Neutral(start, rect) && InRect(changed0, rect) && Tracks(e0, start, rect, forward, changed0)
    requires forall p :: p in changed0 ==> p.1 != dstRow
    modifies dst
    ensures forall px :: rect.x <= px < rect.Right() ==>
              dst[dstRow, px] == f(old(src[srcRow, px - rect.x + sx]), old(dst[dstRow, px]))
    ensures forall py, px :: 0 <= py < dst.Length0 && 0 <= px < dst.Length1 && !(py == dstRow && rect.Has(px, py)) ==>
              dst[py, px] == old(dst[py, px])
    ensures InRect(changed, rect) && Tracks(e, start, rect, forward, changed)
    ensures forall p :: p in changed <==>
              p in changed0 || (p.1 == dstRow && rect.Has(p.0, p.1) && dst[dstRow, p.0] != old(dst[dstRow, p.0]))
  {
    hide Tracks;
    e, changed := e0, changed0;
    var step := if forward then 1 else -1;
    var srcCol := if forward then sx else sx + rect.width - 1;
    var dstCol := if forward then rect.x else rect.x + rect.width - 1;
    var x := 0;
    while x < rect.width
      invariant 0 <= x <= rect.width
      invariant dstCol == (if forward then rect.x + x else rect.Right() - 1 - x) && srcCol - sx == dstCol - rect.x
      invariant forall px :: rect.x <= px < rect.Right() ==>
        dst[dstRow, px] == if (if forward then px < dstCol else dstCol < px)
                           then f(old(src[srcRow, px - rect.x + sx]), old(dst[dstRow, px]))
                           else old(dst[dstRow, px])
      invariant forall py, px :: 0 <= py < dst.Length0 && 0 <= px < dst.Length1 && !(py == dstRow && rect.Has(px, py)) ==>
        dst[py, px] == old(dst[py, px])
      invariant InRect(changed, rect) && Tracks(e, start, rect, forward, changed)
      invariant forall p :: p in changed <==>
        p in changed0 || (p.1 == dstRow && rect.Has(p.0, p.1) && dst[dstRow, p.0] != old(dst[dstRow, p.0]))
    {
      assert src[srcRow, srcCol] == old(src[srcRow, srcCol]);
      var orig := dst[dstRow, dstCol];
      var next := f(src[srcRow, srcCol], orig);
      dst[dstRow, dstCol] := next;
      if next != orig {
        IncludeTracks(e, start, rect, forward, changed, dstCol, dstRow);
        e := Include(e, x, y);
        changed := changed + {(dstCol, dstRow)};
      }
      srcCol := srcCol + step;
      dstCol := dstCol + step;
      x := x + 1;
    }
  }

  /** Rows the walk has finished when it stands at loop row y. */
  predicate RowDone(rect: Rect, forward: bool, y: int, px: int, py: int) {
    rect.Has(px, py) && LoopY(rect, forward, py) < y
  }

  /** The row loop of __guac_common_surface_transfer. */
  method TransferRows<C(==)>(src: array2<C>, sx: int, sy: int, f: (C, C) -> C, dst: array2<C>, rect: Rect, forward: bool,
                             start: Extent)
    returns (e: Extent, ghost changed: Points)
    requires !rect.Empty() && Fits(rect, dst) && Neutral(start, rect)
    requires Fits(Rect(sx, sy, rect.width, rect.height), src)
    requires forward == TransferForward(src == dst, rect, sx, sy)
    modifies dst
    ensures forall py, px :: rect.Has(px, py) ==>
              dst[py, px] == f(old(src[py - rect.y + sy, px - rect.x + sx]), old(dst[py, px]))
    ensures forall py, px :: 0 <= py < dst.Length0 && 0 <= px < dst.Length1 && !rect.Has(px, py) ==>
              dst[py, px] == old(dst[py, px])
    ensures forall p :: p in changed <==> rect.Has(p.0, p.1) && dst[p.1, p.0] != old(dst[p.1, p.0])
    ensures InRect(changed, rect) && Tracks(e, start, rect, forward, changed)
  {
    hide Tracks;
    e := start;
    var step := if forward then 1 else -1;
    var srcRow := if forward then sy else sy + rect.height - 1;
    var dstRow := if forward then rect.y else rect.y + rect.height - 1;
    changed := {};
    StartTracks(start, rect, forward);

    var y := 0;
    while y < rect.height
      invariant 0 <= y <= rect.height
      invariant dstRow == (if forward then rect.y + y else rect.Bottom() - 1 - y) && srcRow - sy == dstRow - rect.y
      invariant forall py, px :: RowDone(rect, forward, y, px, py) ==>
        dst[py, px] == f(old(src[py - rect.y + sy, px - rect.x + sx]), old(dst[py, px]))
      invariant forall py, px :: 0 <= py < dst.Length0 && 0 <= px < dst.Length1 && !RowDone(rect, forward, y, px, py) ==>
        dst[py, px] == old(dst[py, px])
      invariant InRect(changed, rect) && Tracks(e, start, rect, forward, changed)
      invariant forall p :: p in changed <==>
        RowDone(rect, forward, y, p.0, p.1) && dst[p.1, p.0] != old(dst[p.1, p.0])
    {
      assert forall px :: sx <= px < sx + rect.width ==> src[srcRow, px] == old(src[srcRow, px]);
      e, changed := TransferRow(src, srcRow, sx, f, dst, dstRow, rect, forward, y, e, start, changed);
      srcRow := srcRow + step;
      dstRow := dstRow + step;
      y := y + 1;
    }
  }

  /** __guac_common_surface_transfer. Every pixel of the area becomes the
      transfer function of the old source and the old destination pixel, even
      when the two areas overlap in one buffer. The area returned is the exact
      bounding box of the pixels that changed; when none changed it is empty,
      except that a one-pixel area is returned as it was. */
  method TransferWith<C(==)>(src: array2<C>, sx: int, sy: int, f: (C, C) -> C, dst: array2<C>, rect: Rect)
    returns (sx': int, sy': int, box: Rect, ghost changed: Points)
    requires !rect.Empty() && Fits(rect, dst)
    requires Fits(Rect(sx, sy, rect.width, rect.height), src)
    modifies dst
    ensures forall py, px :: rect.Has(px, py) ==>
              dst[py, px] == f(old(src[py - rect.y + sy, px - rect.x + sx]), old(dst[py, px]))
    ensures forall py, px :: 0 <= py < dst.Length0 && 0 <= px < dst.Length1 && !rect.Has(px, py) ==>
              dst[py, px] == old(dst[py, px])
    ensures forall p :: p in changed <==> rect.Has(p.0, p.1) && dst[p.1, p.0] != old(dst[p.1, p.0])
    ensures changed != {} ==> IsChangeBox(box, changed) && box.Within(rect)
    ensures changed == {} ==> box == if rect.width == 1 && rect.height == 1 then rect else Rect(rect.x, rect.y, 0, 0)
    ensures forall py, px :: 0 <= py < dst.Length0 && 0 <= px < dst.Length1 && dst[py, px] != old(dst[py, px]) ==> box.Has(px, py)
    ensures box.x - rect.x == sx' - sx && box.y - rect.y == sy' - sy
  {
    hide Tracks, IsChangeBox;
    var start := Extent(rect.width - 1, rect.height - 1, 0, 0);
    var forward := TransferForward(src == dst, rect, sx, sy);
    var e, updated := TransferRows(src, sx, sy, f, dst, rect, forward, start);
    changed := updated;
    ghost var start' := start;
    if !forward {
      FlipTracks(e, start, rect, changed);
      e := Flip(rect, e);
      start' := Flip(rect, start);
    }
    RestrictIsChangeBox(e, start', rect, changed);
    box := Restrict(rect, e);
    sx' := sx + (box.x - rect.x);
    sy' := sy + (box.y - rect.y);
    forall py, px | 0 <= py < dst.Length0 && 0 <= px < dst.Length1 && dst[py, px] != old(dst[py, px])
      ensures box.Has(px, py)
    {
      assert (px, py) in changed;
    }
  }

  /** One row of an update that reads nothing but the pixel it overwrites. */
  method UpdateRow<C(==)>(f: (int, int, C) -> C, dst: array2<C>, row: int, rect: Rect, e0: Extent,
                          ghost start: Extent, ghost changed0: Points)
    returns (e: Extent, ghost changed: Points)
    requires !rect.Empty() && Fits(rect, dst) && rect.y <= row < rect.Bottom()
    requires Neutral(start, rect) && InRect(changed0, rect) && Tracks(e0, start, rect, true, changed0)
    requires forall p :: p in changed0 ==> p.1 != row
    modifies dst
    ensures forall px :: rect.x <= px < rect.Right() ==> dst[row, px] == f(px, row, old(dst[row, px]))
    ensures forall py, px :: 0 <= py < dst.Length0 && 0 <= px < dst.Length1 && !(py == row && rect.Has(px, py)) ==>
              dst[py, px] == old(dst[py, px])
    ensures InRect(changed, rect) && Tracks(e, start, rect, true, changed)
    ensures forall p :: p in changed <==>
              p in changed0 || (p.1 == row && rect.Has(p.0, p.1) && dst[row, p.0] != old(dst[row, p.0]))
  {
    hide Tracks;
    e, changed := e0, changed0;
    var x := 0;
    while x < rect.width
      invariant 0 <= x <= rect.width
      invariant forall px :: rect.x <= px < rect.Right() ==>
        dst[row, px] == if px < rect.x + x then f(px, row, old(dst[row, px])) else old(dst[row, px])
      invariant forall py, px :: 0 <= py < dst.Length0 && 0 <= px < dst.Length1 && !(py == row && rect.Has(px, py)) ==>
        dst[py, px] == old(dst[py, px])
      invariant InRect(changed, rect) && Tracks(e, start, rect, true, changed)
      invariant forall p :: p in changed <==>
        p in changed0 || (p.1 == row && rect.Has(p.0, p.1) && dst[row, p.0] != old(dst[row, p.0]))
    {
      var orig := dst[row, rect.x + x];
      var next := f(rect.x + x, row, orig);
      if orig != next {
        IncludeTracks(e, start, rect, true, changed, rect.x + x, row);
        e := Include(e, x, row - rect.y);
        changed := changed + {(rect.x + x, row)};
        dst[row, rect.x + x] := next;
      }
      x := x + 1;
    }
  }

  /** The loop of __guac_common_surface_set and __guac_common_surface_put. The
      two differ in the colour they compute and in the extent they start from:
      `slack` is 0 for set, which starts at width - 1 and so returns an
      unchanged one-pixel area as it was, and 1 for put. */
  method Update<C(==)>(f: (int, int, C) -> C, dst: array2<C>, rect: Rect, slack: nat)
    returns (box: Rect, ghost changed: Points)
    requires !rect.Empty() && Fits(rect, dst)
    modifies dst
    ensures forall py, px :: rect.Has(px, py) ==> dst[py, px] == f(px, py, old(dst[py, px]))
    ensures forall py, px :: 0 <= py < dst.Length0 && 0 <= px < dst.Length1 && !rect.Has(px, py) ==>
              dst[py, px] == old(dst[py, px])
    ensures forall p :: p in changed <==> rect.Has(p.0, p.1) && dst[p.1, p.0] != old(dst[p.1, p.0])
    ensures changed != {} ==> IsChangeBox(box, changed) && box.Within(rect)
    ensures changed == {} ==>
              box == if slack == 0 && rect.width == 1 && rect.height == 1 then rect else Rect(rect.x, rect.y, 0, 0)
    ensures forall py, px :: 0 <= py < dst.Length0 && 0 <= px < dst.Length1 && dst[py, px] != old(dst[py, px]) ==> box.Has(px, py)
  {
    hide Tracks, IsChangeBox;
    var start := Extent(rect.width - 1 + slack, rect.height - 1 + slack, 0, 0);
    var e := start;
    changed := {};
    StartTracks(start, rect, true);
    var y := 0;
    while y < rect.height
      invariant 0 <= y <= rect.height
      invariant forall py, px :: RowDone(rect, true, y, px, py) ==> dst[py, px] == f(px, py, old(dst[py, px]))
      invariant forall py, px :: 0 <= py < dst.Length0 && 0 <= px < dst.Length1 && !RowDone(rect, true, y, px, py) ==>
        dst[py, px] == old(dst[py, px])
      invariant InRect(changed, rect) && Tracks(e, start, rect, true, changed)
      invariant forall p :: p in changed <==>
        RowDone(rect, true, y, p.0, p.1) && dst[p.1, p.0] != old(dst[p.1, p.0])
    {
      e, changed := UpdateRow(f, dst, rect.y + y, rect, e, start, changed);
      y := y + 1;
    }
    RestrictIsChangeBox(e, start, rect, changed);
    box := Restrict(rect, e);
    forall py, px | 0 <= py < dst.Length0 && 0 <= px < dst.Length1 && dst[py, px] != old(dst[py, px])
      ensures box.Has(px, py)
    {
      assert (px, py) in changed;
    }
  }
}
