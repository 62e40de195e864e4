/** What each call on a surface does (src/common/surface.c), as a function of the
    surface and of what has been sent, and what every call keeps. */
module Calls {
  import opened Rects
  import opened Bits
  import opened Operators
  import opened Pixels
  import opened Updates
  import opened Clients
  import opened Shipping

  /** A surface as a value. */
  datatype Side = Side(setting: Setting, layer: int, track: Track, picture: Picture)

  datatype Out = Out(side: Side, sent: seq<Instr>)

  ghost predicate Valid(side: Side) {
    Sound(side.track) && forall x, y :: side.setting.bounds.Has(x, y) <==> (x, y) in side.picture
  }

  ghost function At(side: Side, sent: seq<Instr>): Moment {
    Moment(side.picture, (iset p: (int, int) | Waits(side.track, p.0, p.1)), sent)
  }

  /** Another picture of the same area, and where it differs. */
  ghost predicate SameArea(side: Side, picture: Picture) {
    forall x, y :: side.setting.bounds.Has(x, y) <==> (x, y) in picture
  }

  ghost predicate ChangesOnly(before: Picture, after: Picture, box: Rect) {
    forall x, y :: (x, y) in before && (x, y) in after && after[(x, y)] != before[(x, y)] ==> box.Has(x, y)
  }

  /** Instructions for one layer leave every other layer alone. */
  ghost predicate OthersAsBefore(before: seq<Instr>, after: seq<Instr>, layer: int) {
    forall l, x, y :: l != layer ==> ClientAt(after, l, x, y) == ClientAt(before, l, x, y)
  }

  /** What every call keeps: all changes are accounted for, and opaque pixels stay
      in step. */
  ghost predicate Keeps(m: Moment, n: Moment, bounds: Rect, layer: int) {
    Accounted(m, n, bounds, layer) && (InStep(m, bounds, layer) ==> InStep(n, bounds, layer))
  }

  // ---------------------------------------------------------------- trimming

  ghost predicate Differ(before: Picture, after: Picture, x: int, y: int) {
    (x, y) in before && (x, y) in after && before[(x, y)] != after[(x, y)]
  }

  ghost predicate InColumn(box: Rect, before: Picture, after: Picture, x: int) {
    exists y :: box.Has(x, y) && Differ(before, after, x, y)
  }

  ghost predicate InRow(box: Rect, before: Picture, after: Picture, y: int) {
    exists x :: box.Has(x, y) && Differ(before, after, x, y)
  }

  /** The part of an area an update is cut down to: the bounding box of the pixels
      that changed. If none did it is empty, but some updates keep an area of one
      pixel. */
  ghost predicate IsTrim(box: Rect, before: Picture, after: Picture, area: Rect, keepsOne: bool) {
    if exists x, y :: area.Has(x, y) && Differ(before, after, x, y) then
      && !box.Empty() && box.Within(area)
      && (forall x, y :: area.Has(x, y) && Differ(before, after, x, y) ==> box.Has(x, y))
      && InColumn(box, before, after, box.x) && InColumn(box, before, after, box.Right() - 1)
      && InRow(box, before, after, box.y) && InRow(box, before, after, box.Bottom() - 1)
    else
      box == if keepsOne && area.width == 1 && area.height == 1 then area else Rect(area.x, area.y, 0, 0)
  }

  lemma TrimEdges(b: Rect, c: Rect, before: Picture, after: Picture, area: Rect, keepsOne: bool)
    requires IsTrim(b, before, after, area, keepsOne) && IsTrim(c, before, after, area, keepsOne)
    requires exists x, y :: area.Has(x, y) && Differ(before, after, x, y)
    ensures b.Within(c)
  {
    hide Differ;
    var left :| b.Has(b.x, left) && Differ(before, after, b.x, left);
    var right :| b.Has(b.Right() - 1, right) && Differ(before, after, b.Right() - 1, right);
    var top :| b.Has(top, b.y) && Differ(before, after, top, b.y);
    var bottom :| b.Has(bottom, b.Bottom() - 1) && Differ(before, after, bottom, b.Bottom() - 1);
    assert c.Has(b.x, left) && c.Has(b.Right() - 1, right) && c.Has(top, b.y) && c.Has(bottom, b.Bottom() - 1);
  }

  /** The trimmed area depends on nothing but the two pictures. */
  lemma TrimIsUnique(b: Rect, c: Rect, before: Picture, after: Picture, area: Rect, keepsOne: bool)
    requires IsTrim(b, before, after, area, keepsOne) && IsTrim(c, before, after, area, keepsOne)
    ensures b == c
  {
    hide Differ;
    if exists x, y :: area.Has(x, y) && Differ(before, after, x, y) {
      TrimEdges(b, c, before, after, area, keepsOne);
      TrimEdges(c, b, before, after, area, keepsOne);
    }
  }

  // ------------------------------------------------------------------ flushing

  /** guac_common_surface_flush. */
  ghost function FlushOut(side: Side, sent: seq<Instr>): Out
    requires Valid(side)
  {
    var f := Flush(side.setting, side.picture, side.track);
    Out(side.(track := f.track), sent + Images(side.layer, f.sends, side.picture))
  }

  lemma ImagesForOthers(sent: seq<Instr>, layer: int, sends: seq<Sending>, picture: Picture)
    ensures OthersAsBefore(sent, sent + Images(layer, sends, picture), layer)
  {
    hide ClientAt, Images, PixelAfter;
    forall l, x, y | l != layer
      ensures ClientAt(sent + Images(layer, sends, picture), l, x, y) == ClientAt(sent, l, x, y)
    {
      ReplayImages(sent, layer, sends, picture, l, x, y);
    }
  }

  lemma NothingWaits(t: Track)
    requires !t.dirty && t.queue == []
    ensures forall x, y :: !Waits(t, x, y)
  {
  }

  /** After a flush nothing waits, every pixel that waited has been sent, and the
      client shows of each pixel exactly what the images make of it. */
  lemma FlushKeeps(side: Side, sent: seq<Instr>)
    requires Valid(side)
    ensures var o, sends := FlushOut(side, sent), Flush(side.setting, side.picture, side.track).sends;
            && Valid(o.side) && !o.side.track.dirty && o.side.track.queue == []
            && Keeps(At(side, sent), At(o.side, o.sent), side.setting.bounds, side.layer)
            && OthersAsBefore(sent, o.sent, side.layer)
            && (forall x, y :: side.setting.bounds.Has(x, y) ==>
                  ClientAt(o.sent, side.layer, x, y) ==
                  PixelAfter(sends, x, y, side.picture[(x, y)], ClientAt(sent, side.layer, x, y)))
  {
    hide ClientAt, PixelAfter, Images, Flush, Covered, Waits, Accounted, InStep;
    var f, bounds := Flush(side.setting, side.picture, side.track), side.setting.bounds;
    var o := FlushOut(side, sent);
    forall x, y ensures bounds.Has(x, y) && Waits(side.track, x, y) ==> Covered(f.sends, x, y) {
      FlushCovers(side.setting, side.picture, side.track, x, y);
    }
    FlushCovers(side.setting, side.picture, side.track, 0, 0);
    ImagesStep(At(side, sent), At(o.side, o.sent), bounds, side.layer, f.sends);
    ImagesForOthers(sent, side.layer, f.sends, side.picture);
    forall x, y | bounds.Has(x, y)
      ensures ClientAt(o.sent, side.layer, x, y) ==
              PixelAfter(f.sends, x, y, side.picture[(x, y)], ClientAt(sent, side.layer, x, y))
    {
      ReplayImages(sent, side.layer, f.sends, side.picture, side.layer, x, y);
    }
  }

  /** The client shows the pixel as it is; or, unless PNG alone was wanted, without its
      alpha channel if the last image to cover it had none. */
  ghost predicate FlushShows(side: Side, sent: seq<Instr>, pngOnly: bool, x: int, y: int)
    requires Valid(side) && side.setting.bounds.Has(x, y)
  {
    var o, c := FlushOut(side, sent), side.picture[(x, y)];
    ClientAt(o.sent, side.layer, x, y) ==
    if pngOnly || DrawnWithAlpha(o.sent, side.layer, x, y) then c else Opaqued(c)
  }

  /** After a flush without WebP the client shows every pixel that waited, transparent
      ones too. */
  lemma FlushIsShown(side: Side, sent: seq<Instr>, pngOnly: bool, x: int, y: int)
    requires Valid(side) && Wanted(side.track.formats, pngOnly)
    requires side.setting.bounds.Has(x, y) && Waits(side.track, x, y)
    ensures FlushShows(side, sent, pngOnly, x, y)
  {
    hide ClientAt, DrawnWithAlpha, Images, Flush, Covered, Waits, Faithful, Wanted, Opaqued;
    FlushCovers(side.setting, side.picture, side.track, x, y);
    FlushIsFaithful(side.setting, side.picture, side.track, pngOnly);
    FaithfulImages(sent, side.layer, Flush(side.setting, side.picture, side.track).sends, side.picture, pngOnly, x, y);
  }

  // ------------------------------------------------------- drawing and painting

  /** The end of draw and paint: the picture has changed inside the box. */
  ghost function PostponeOut(side: Side, sent: seq<Instr>, picture: Picture, box: Rect): Out
    requires Valid(side)
  {
    if box.Empty() then Out(side.(picture := picture), sent)
    else
      var f := Postpone(side.setting, picture, side.track, box);
      Out(side.(track := f.track, picture := picture), sent + Images(side.layer, f.sends, picture))
  }

  lemma NothingChanged(side: Side, sent: seq<Instr>, picture: Picture)
    requires Valid(side) && SameArea(side, picture)
    requires forall x, y :: (x, y) in picture && (x, y) in side.picture ==> picture[(x, y)] == side.picture[(x, y)]
    ensures Keeps(At(side, sent), At(side.(picture := picture), sent), side.setting.bounds, side.layer)
  {
    hide ClientAt, Waits, SentOver;
  }

  lemma PostponeKeeps(side: Side, sent: seq<Instr>, picture: Picture, box: Rect)
    requires Valid(side) && SameArea(side, picture) && ChangesOnly(side.picture, picture, box)
    ensures var o := PostponeOut(side, sent, picture, box);
            && Valid(o.side) && o.side.picture == picture
            && Keeps(At(side, sent), At(o.side, o.sent), side.setting.bounds, side.layer)
            && OthersAsBefore(sent, o.sent, side.layer)
  {
    hide ClientAt, Images, Postpone, Covered, Waits, Accounted, InStep;
    var bounds := side.setting.bounds;
    var o := PostponeOut(side, sent, picture, box);
    if box.Empty() {
      NothingChanged(side, sent, picture);
    } else {
      var f := Postpone(side.setting, picture, side.track, box);
      forall x, y
        ensures bounds.Has(x, y) && (box.Has(x, y) || Waits(side.track, x, y)) ==>
                Waits(f.track, x, y) || Covered(f.sends, x, y)
      {
        PostponeCovers(side.setting, picture, side.track, box, x, y);
      }
      PostponeCovers(side.setting, picture, side.track, box, 0, 0);
      ImagesStep(At(side, sent), At(o.side, o.sent), bounds, side.layer, f.sends);
      ImagesForOthers(sent, side.layer, f.sends, picture);
    }
  }

  // -------------------------------------------------------------------- setting

  /** The end of guac_common_surface_set: the box has been given one colour. */
  ghost function SetOut(side: Side, sent: seq<Instr>, picture: Picture, box: Rect, color: Color): Out
    requires Valid(side)
  {
    if box.Empty() || !FullAlpha(color) then PostponeOut(side, sent, picture, box)
    else if ShouldCombine(side.setting, side.track, box, true) then
      Out(side.(track := Marked(side.track, box), picture := picture), sent)
    else
      var f := Flush(side.setting, picture, side.track);
      Out(side.(track := f.track.(realized := true), picture := picture),
          sent + Images(side.layer, f.sends, picture) + [CFill(side.layer, box, color)])
  }

  lemma MarkedKeeps(side: Side, sent: seq<Instr>, picture: Picture, box: Rect)
    requires Valid(side) && SameArea(side, picture) && ChangesOnly(side.picture, picture, box)
    ensures var after := side.(track := Marked(side.track, box), picture := picture);
            Valid(after) && Keeps(At(side, sent), At(after, sent), side.setting.bounds, side.layer)
  {
    hide ClientAt, Covered, Waits, Accounted, InStep;
    var after := side.(track := Marked(side.track, box), picture := picture);
    forall x, y | box.Has(x, y) || Waits(side.track, x, y) ensures Waits(after.track, x, y) {
      MarkedWaits(side.track, box, x, y);
    }
    assert sent + Images(side.layer, [], picture) == sent;
    ImagesStep(At(side, sent), At(after, sent), side.setting.bounds, side.layer, []);
  }

  lemma FillKeeps(side: Side, sent: seq<Instr>, picture: Picture, box: Rect, color: Color)
    requires Valid(side) && SameArea(side, picture) && ChangesOnly(side.picture, picture, box) && FullAlpha(color)
    requires forall x, y :: box.Has(x, y) && (x, y) in picture ==> picture[(x, y)] == color
    ensures var f := Flush(side.setting, picture, side.track);
            var after := side.(track := f.track.(realized := true), picture := picture);
            var sent' := sent + Images(side.layer, f.sends, picture) + [CFill(side.layer, box, color)];
            && Valid(after) && Keeps(At(side, sent), At(after, sent'), side.setting.bounds, side.layer)
            && OthersAsBefore(sent, sent', side.layer)
  {
    hide ClientAt, Images, Flush, Covered, Waits, Accounted, InStep, FullAlpha;
    var f, bounds := Flush(side.setting, picture, side.track), side.setting.bounds;
    var after := side.(track := f.track.(realized := true), picture := picture);
    var flushed := sent + Images(side.layer, f.sends, picture);
    var sent' := flushed + [CFill(side.layer, box, color)];
    forall x, y ensures bounds.Has(x, y) && Waits(side.track, x, y) ==> Covered(f.sends, x, y) {
      FlushCovers(side.setting, picture, side.track, x, y);
    }
    FlushCovers(side.setting, picture, side.track, 0, 0);
    FillStep(At(side, sent), At(after, sent'), bounds, side.layer, f.sends, box, color);
    ImagesForOthers(sent, side.layer, f.sends, picture);
    forall l, x, y | l != side.layer ensures ClientAt(sent', l, x, y) == ClientAt(flushed, l, x, y) {
      ReplayOne(flushed, CFill(side.layer, box, color), l, x, y);
    }
  }

  lemma SetKeeps(side: Side, sent: seq<Instr>, picture: Picture, box: Rect, color: Color)
    requires Valid(side) && SameArea(side, picture) && ChangesOnly(side.picture, picture, box)
    requires forall x, y :: box.Has(x, y) && (x, y) in picture ==> picture[(x, y)] == color
    ensures var o := SetOut(side, sent, picture, box, color);
            && Valid(o.side) && o.side.picture == picture
            && Keeps(At(side, sent), At(o.side, o.sent), side.setting.bounds, side.layer)
            && OthersAsBefore(sent, o.sent, side.layer)
  {
    hide ClientAt, Images, PostponeOut, Flush, Covered, Waits, Accounted, InStep, FullAlpha, ShouldCombine, Marked;
    if box.Empty() || !FullAlpha(color) {
      PostponeKeeps(side, sent, picture, box);
    } else if ShouldCombine(side.setting, side.track, box, true) {
      MarkedKeeps(side, sent, picture, box);
    } else {
      FillKeeps(side, sent, picture, box, color);
    }
  }

  // ------------------------------------------------------- copies and transfers

  /** The picture of the destination after a transfer, every pixel from the old
      source and the old destination. */
  ghost function Combined(op: TransferFn, source: Picture, sx: int, sy: int, before: Picture, area: Rect): Picture {
    imap p: (int, int) | p in before ::
      if area.Has(p.0, p.1) && (p.0 - area.x + sx, p.1 - area.y + sy) in source
      then TransferInt(op, source[(p.0 - area.x + sx, p.1 - area.y + sy)], before[p])
      else before[p]
  }

  /** A pixel of the area, bit by bit. */
  lemma CombinedFollows(op: TransferFn, source: Picture, sx: int, sy: int, before: Picture, area: Rect, x: int, y: int)
    requires area.Has(x, y) && (x, y) in before && (x - area.x + sx, y - area.y + sy) in source
    ensures (x, y) in Combined(op, source, sx, sy, before, area)
    ensures Follows(op, source[(x - area.x + sx, y - area.y + sy)], before[(x, y)],
                    Combined(op, source, sx, sy, before, area)[(x, y)])
  {
    hide TransferInt, Follows;
    TransferFollows(op, source[(x - area.x + sx, y - area.y + sy)], before[(x, y)]);
  }

  lemma CombinedElsewhere(op: TransferFn, source: Picture, sx: int, sy: int, before: Picture, area: Rect, x: int, y: int)
    requires !area.Has(x, y) && (x, y) in before
    ensures (x, y) in Combined(op, source, sx, sy, before, area)
    ensures Combined(op, source, sx, sy, before, area)[(x, y)] == before[(x, y)]
  {
  }

  /** The area lies in the destination, and its source in the source surface. */
  ghost predicate Fits(src: Side, dst: Side, sx: int, sy: int, area: Rect) {
    && !area.Empty() && area.Within(dst.setting.bounds)
    && Rect(sx, sy, area.width, area.height).Within(src.setting.bounds)
  }

  /** Every pixel of the area is one of the destination, and its source one of the source
      surface. */
  ghost predicate Reaches(src: Side, dst: Side, tx: int, ty: int, area: Rect) {
    forall x, y {:trigger area.Has(x, y)} :: area.Has(x, y) ==>
      dst.setting.bounds.Has(x, y) && src.setting.bounds.Has(x - area.x + tx, y - area.y + ty)
  }

  /** What a transfer does to pictures: inside the area every pixel becomes, bit by bit,
      the function of old source and old destination, and outside it none changes. From a
      pixel (mx, my) leads to its source. */
  ghost predicate Transferred(op: TransferFn, source: Picture, before: Picture, after: Picture, area: Rect, mx: int, my: int) {
    && (forall x, y {:trigger area.Has(x, y)} :: area.Has(x, y) ==>
          && (x, y) in before && (x, y) in after && (x + mx, y + my) in source
          && Follows(op, source[(x + mx, y + my)], before[(x, y)], after[(x, y)]))
    && (forall x, y :: (x, y) in before && !area.Has(x, y) ==> (x, y) in after && after[(x, y)] == before[(x, y)])
  }

  lemma NothingTransferred(op: TransferFn, source: Picture, picture: Picture, area: Rect, mx: int, my: int)
    requires area.Empty()
    ensures Transferred(op, source, picture, picture, area, mx, my)
  {
    hide Follows;
  }

  lemma CombinedTransferred(op: TransferFn, src: Side, dst: Side, tx: int, ty: int, area: Rect)
    requires Valid(src) && Valid(dst) && Reaches(src, dst, tx, ty, area)
    ensures Transferred(op, src.picture, dst.picture, Combined(op, src.picture, tx, ty, dst.picture, area), area,
                        tx - area.x, ty - area.y)
  {
    hide Combined, Follows, TransferInt;
    forall x, y | area.Has(x, y)
      ensures var after := Combined(op, src.picture, tx, ty, dst.picture, area);
              && (x, y) in dst.picture && (x, y) in after && (x + (tx - area.x), y + (ty - area.y)) in src.picture
              && Follows(op, src.picture[(x + (tx - area.x), y + (ty - area.y))], dst.picture[(x, y)], after[(x, y)])
    {
      assert (x - area.x + tx, y - area.y + ty) == (x + (tx - area.x), y + (ty - area.y));
      CombinedFollows(op, src.picture, tx, ty, dst.picture, area, x, y);
    }
    forall x, y | (x, y) in dst.picture && !area.Has(x, y)
      ensures var after := Combined(op, src.picture, tx, ty, dst.picture, area);
              (x, y) in after && after[(x, y)] == dst.picture[(x, y)]
    {
      CombinedElsewhere(op, src.picture, tx, ty, dst.picture, area, x, y);
    }
  }

  datatype Pair = Pair(src: Side, dst: Side, sent: seq<Instr>)

  /** The instructions of a copy or transfer between surfaces, if the client is told
      at once. */
  ghost function Crossing(tell: Tell, p: Pair, sx: int, sy: int, area: Rect, box: Rect): Across
    requires Valid(p.src) && Valid(p.dst)
  {
    var result := Combined(LocalOp(tell), p.src.picture, sx, sy, p.dst.picture, area);
    Across(tell, p.sent, p.dst.layer, Flush(p.dst.setting, result, p.dst.track).sends, result,
           p.src.layer, Flush(p.src.setting, p.src.picture, p.src.track).sends, p.src.picture,
           sx + (box.x - area.x), sy + (box.y - area.y), box)
  }

  /** A copy or transfer from one surface to another. The box is what the area is
      trimmed to. */
  ghost function AcrossOut(tell: Tell, p: Pair, sx: int, sy: int, area: Rect, box: Rect): Pair
    requires Valid(p.src) && Valid(p.dst)
  {
    var result := Combined(LocalOp(tell), p.src.picture, sx, sy, p.dst.picture, area);
    if box.Empty() then p.(dst := p.dst.(picture := result))
    else if ShouldCombine(p.dst.setting, p.dst.track, box, true) then
      p.(dst := p.dst.(track := Marked(p.dst.track, box), picture := result))
    else
      Pair(p.src.(track := Flush(p.src.setting, p.src.picture, p.src.track).track),
           p.dst.(track := Flush(p.dst.setting, result, p.dst.track).track.(realized := true), picture := result),
           Crossing(tell, p, sx, sy, area, box).After())
  }

  /** No opaque pixel of the result depends on a source pixel the client may not
      have right. */
  ghost predicate SourcesKnown(tell: Tell, source: Picture, sx: int, sy: int, before: Picture, area: Rect) {
    forall x, y {:trigger area.Has(x, y)} ::
      area.Has(x, y) && (x, y) in before && (x - area.x + sx, y - area.y + sy) in source ==>
      var s := source[(x - area.x + sx, y - area.y + sy)];
      FullAlpha(TransferInt(LocalOp(tell), s, before[(x, y)])) ==> SourceKnown(tell, s)
  }

  /** The pixel is sent by the flush with the function applied, and the client,
      told to apply it again, would change it again. Nothing of this happens when
      the update merely joins the dirty rectangle. */
  ghost predicate ToldTwice(tell: Tell, p: Pair, sx: int, sy: int, area: Rect, box: Rect, x: int, y: int)
    requires Valid(p.src) && Valid(p.dst)
  {
    && box.Has(x, y) && !ShouldCombine(p.dst.setting, p.dst.track, box, true)
    && (x, y) in p.dst.picture && (x - area.x + sx, y - area.y + sy) in p.src.picture
    && var s := p.src.picture[(x - area.x + sx, y - area.y + sy)];
       var r := TransferInt(LocalOp(tell), s, p.dst.picture[(x, y)]);
       && FullAlpha(r) && Told(tell, s, r) != r
       && Covered(Crossing(tell, p, sx, sy, area, box).dstSends, x, y)
  }

  lemma CombinedChanges(op: TransferFn, source: Picture, sx: int, sy: int, before: Picture, area: Rect, box: Rect)
    requires IsTrim(box, before, Combined(op, source, sx, sy, before, area), area, true)
    ensures ChangesOnly(before, Combined(op, source, sx, sy, before, area), box)
    ensures forall x, y :: (x, y) in Combined(op, source, sx, sy, before, area) <==> (x, y) in before
    ensures box.Empty() || box.Within(area)
  {
    hide TransferInt;
    var after := Combined(op, source, sx, sy, before, area);
    forall x, y | (x, y) in before && after[(x, y)] != before[(x, y)] ensures box.Has(x, y) {
      assert area.Has(x, y) && Differ(before, after, x, y);
    }
  }

  /** A pixel of the area, its source, and what becomes of it. */
  lemma AreaPixel(op: TransferFn, src: Side, dst: Side, sx: int, sy: int, area: Rect, x: int, y: int)
    requires Valid(src) && Valid(dst) && Fits(src, dst, sx, sy, area) && area.Has(x, y)
    ensures var u, v, r := x - area.x + sx, y - area.y + sy, Combined(op, src.picture, sx, sy, dst.picture, area);
            && dst.setting.bounds.Has(x, y) && src.setting.bounds.Has(u, v)
            && (x, y) in dst.picture && (u, v) in src.picture && (x, y) in r
            && r[(x, y)] == TransferInt(op, src.picture[(u, v)], dst.picture[(x, y)])
  {
    hide TransferInt;
  }

  lemma FlushedAway(side: Side, picture: Picture)
    requires Valid(side)
    ensures var f := Flush(side.setting, picture, side.track);
            && Sound(f.track) && !f.track.dirty && f.track.queue == []
            && forall x, y :: side.setting.bounds.Has(x, y) && Waits(side.track, x, y) ==> Covered(f.sends, x, y)
  {
    hide Flush, Covered, Waits;
    FlushCovers(side.setting, picture, side.track, 0, 0);
    forall x, y ensures side.setting.bounds.Has(x, y) && Waits(side.track, x, y) ==>
                        Covered(Flush(side.setting, picture, side.track).sends, x, y)
    {
      FlushCovers(side.setting, picture, side.track, x, y);
    }
  }

  lemma CrossingIsValid(tell: Tell, p: Pair, sx: int, sy: int, area: Rect, box: Rect)
    requires Valid(p.src) && Valid(p.dst) && p.src.layer != p.dst.layer && Fits(p.src, p.dst, sx, sy, area)
    requires !box.Empty() && box.Within(area)
    ensures var a := Crossing(tell, p, sx, sy, area, box);
            && a.Valid() && Computed(a, p.dst.picture)
            && (forall x, y {:trigger box.Has(x, y)} :: box.Has(x, y) ==>
                  && p.dst.setting.bounds.Has(x, y) && a.From(x, y) == (x - area.x + sx, y - area.y + sy)
                  && p.src.setting.bounds.Has(a.From(x, y).0, a.From(x, y).1))
  {
    hide Flush, TransferInt, Combined;
    var a := Crossing(tell, p, sx, sy, area, box);
    forall x, y | a.box.Has(x, y)
      ensures && a.From(x, y) == (x - area.x + sx, y - area.y + sy) && (x, y) in a.result && a.From(x, y) in a.source
              && p.dst.setting.bounds.Has(x, y) && p.src.setting.bounds.Has(a.From(x, y).0, a.From(x, y).1)
              && (x, y) in p.dst.picture
              && a.result[(x, y)] == TransferInt(LocalOp(tell), a.source[a.From(x, y)], p.dst.picture[(x, y)])
    {
      AreaPixel(LocalOp(tell), p.src, p.dst, sx, sy, area, x, y);
    }
  }

  /** Everything a copy or transfer between surfaces starts from. */
  ghost predicate Meets(tell: Tell, p: Pair, sx: int, sy: int, area: Rect, box: Rect) {
    && Valid(p.src) && Valid(p.dst) && p.src.layer != p.dst.layer && Fits(p.src, p.dst, sx, sy, area)
    && IsTrim(box, p.dst.picture, Combined(LocalOp(tell), p.src.picture, sx, sy, p.dst.picture, area), area, true)
  }

  lemma CrossingSides(tell: Tell, p: Pair, sx: int, sy: int, area: Rect, box: Rect)
    requires Meets(tell, p, sx, sy, area, box) && !box.Empty() && !ShouldCombine(p.dst.setting, p.dst.track, box, true)
    ensures var q := AcrossOut(tell, p, sx, sy, area, box);
            && Valid(q.src) && Valid(q.dst) && !q.dst.track.dirty && q.dst.track.queue == []
  {
    hide Images, Flush, Covered, Waits, ShouldCombine, IsTrim, Fits, TellInstr, Combined;
    var a := Crossing(tell, p, sx, sy, area, box);
    CombinedChanges(LocalOp(tell), p.src.picture, sx, sy, p.dst.picture, area, box);
    FlushedAway(p.dst, a.result);
    FlushedAway(p.src, p.src.picture);
  }

  lemma CrossingIsReady(tell: Tell, p: Pair, sx: int, sy: int, area: Rect, box: Rect)
    requires Meets(tell, p, sx, sy, area, box) && !box.Empty() && !ShouldCombine(p.dst.setting, p.dst.track, box, true)
    ensures var q := AcrossOut(tell, p, sx, sy, area, box);
            Ready(Crossing(tell, p, sx, sy, area, box), At(p.dst, p.sent), At(q.dst, q.sent), At(p.src, p.sent),
                  At(q.src, q.sent), p.dst.setting.bounds, p.src.setting.bounds)
  {
    hide Images, Flush, Covered, Waits, ShouldCombine, IsTrim, Fits, TellInstr, Combined, Computed, Sound;
    var a := Crossing(tell, p, sx, sy, area, box);
    CombinedChanges(LocalOp(tell), p.src.picture, sx, sy, p.dst.picture, area, box);
    CrossingIsValid(tell, p, sx, sy, area, box);
    FlushedAway(p.dst, a.result);
    FlushedAway(p.src, p.src.picture);
  }

  /** Where no source pixel matters that is not opaque, harm is to be told twice. */
  lemma HarmIsTwice(tell: Tell, p: Pair, sx: int, sy: int, area: Rect, box: Rect, x: int, y: int)
    requires Meets(tell, p, sx, sy, area, box) && !box.Empty() && !ShouldCombine(p.dst.setting, p.dst.track, box, true)
    requires SourcesKnown(tell, p.src.picture, sx, sy, p.dst.picture, area)
    ensures Harmed(Crossing(tell, p, sx, sy, area, box), x, y) <==> ToldTwice(tell, p, sx, sy, area, box, x, y)
  {
    hide Images, Flush, Covered, TransferInt, ShouldCombine, IsTrim, Combined, Valid, FullAlpha, SourceKnown, Told;
    if box.Has(x, y) {
      CombinedChanges(LocalOp(tell), p.src.picture, sx, sy, p.dst.picture, area, box);
      AreaPixel(LocalOp(tell), p.src, p.dst, sx, sy, area, x, y);
      assert Crossing(tell, p, sx, sy, area, box).From(x, y) == (x - area.x + sx, y - area.y + sy);
    }
  }

  /** The client is told at once: nothing goes missing, the source stays in step,
      and the destination does if no pixel is told twice. */
  lemma CrossingKeeps(tell: Tell, p: Pair, sx: int, sy: int, area: Rect, box: Rect)
    requires Meets(tell, p, sx, sy, area, box) && !box.Empty() && !ShouldCombine(p.dst.setting, p.dst.track, box, true)
    ensures var q := AcrossOut(tell, p, sx, sy, area, box);
            && Valid(q.src) && Valid(q.dst)
            && Accounted(At(p.dst, p.sent), At(q.dst, q.sent), p.dst.setting.bounds, p.dst.layer)
            && Keeps(At(p.src, p.sent), At(q.src, q.sent), p.src.setting.bounds, p.src.layer)
    ensures var q := AcrossOut(tell, p, sx, sy, area, box);
            InStep(At(p.dst, p.sent), p.dst.setting.bounds, p.dst.layer) &&
            InStep(At(p.src, p.sent), p.src.setting.bounds, p.src.layer) &&
            SourcesKnown(tell, p.src.picture, sx, sy, p.dst.picture, area) &&
            (forall x, y :: !ToldTwice(tell, p, sx, sy, area, box, x, y)) ==>
              InStep(At(q.dst, q.sent), p.dst.setting.bounds, p.dst.layer)
  {
    hide Images, Flush, Covered, Accounted, InStep, SourcesKnown, ToldTwice, ShouldCombine, IsTrim, Combined, Ready, Harmed, At;
    var a, q := Crossing(tell, p, sx, sy, area, box), AcrossOut(tell, p, sx, sy, area, box);
    CrossingSides(tell, p, sx, sy, area, box);
    CrossingIsReady(tell, p, sx, sy, area, box);
    AcrossStep(a, At(p.dst, p.sent), At(q.dst, q.sent), At(p.src, p.sent), At(q.src, q.sent),
               p.dst.setting.bounds, p.src.setting.bounds);
    if SourcesKnown(tell, p.src.picture, sx, sy, p.dst.picture, area) {
      forall x, y ensures Harmed(a, x, y) <==> ToldTwice(tell, p, sx, sy, area, box, x, y) {
        HarmIsTwice(tell, p, sx, sy, area, box, x, y);
      }
    }
  }

  /** A pixel told twice is out of step, and no longer waiting. */
  lemma ToldTwiceShows(tell: Tell, p: Pair, sx: int, sy: int, area: Rect, box: Rect, x: int, y: int)
    requires Meets(tell, p, sx, sy, area, box) && ToldTwice(tell, p, sx, sy, area, box, x, y)
    requires InStep(At(p.dst, p.sent), p.dst.setting.bounds, p.dst.layer)
    requires InStep(At(p.src, p.sent), p.src.setting.bounds, p.src.layer)
    requires SourcesKnown(tell, p.src.picture, sx, sy, p.dst.picture, area)
    ensures var q := AcrossOut(tell, p, sx, sy, area, box);
            && p.dst.setting.bounds.Has(x, y) && (x, y) in q.dst.picture && FullAlpha(q.dst.picture[(x, y)])
            && !Waits(q.dst.track, x, y)
            && ClientAt(q.sent, p.dst.layer, x, y) != q.dst.picture[(x, y)]
  {
    hide ClientAt, Images, Flush, Covered, Waits, FullAlpha, TransferInt, Told, ShouldCombine, IsTrim, Combined, Valid, SourceKnown;
    var a, q := Crossing(tell, p, sx, sy, area, box), AcrossOut(tell, p, sx, sy, area, box);
    CrossingSides(tell, p, sx, sy, area, box);
    CrossingIsReady(tell, p, sx, sy, area, box);
    NothingWaits(q.dst.track);
    HarmIsTwice(tell, p, sx, sy, area, box, x, y);
    CombinedChanges(LocalOp(tell), p.src.picture, sx, sy, p.dst.picture, area, box);
    AreaPixel(LocalOp(tell), p.src, p.dst, sx, sy, area, x, y);
    AcrossInStep(a, At(p.dst, p.sent), At(p.src, p.sent), p.dst.setting.bounds, p.src.setting.bounds, x, y);
  }

  /** A copy or transfer between two surfaces. Nothing ever goes missing, and the
      source stays in step. The destination does if and only if no pixel is told
      twice, provided opaque results do not depend on source pixels that are not
      opaque. */
  lemma AcrossKeeps(tell: Tell, p: Pair, sx: int, sy: int, area: Rect, box: Rect)
    requires Meets(tell, p, sx, sy, area, box)
    ensures var q := AcrossOut(tell, p, sx, sy, area, box);
            && Valid(q.src) && Valid(q.dst)
            && Accounted(At(p.dst, p.sent), At(q.dst, q.sent), p.dst.setting.bounds, p.dst.layer)
            && Keeps(At(p.src, p.sent), At(q.src, q.sent), p.src.setting.bounds, p.src.layer)
    ensures var q := AcrossOut(tell, p, sx, sy, area, box);
            InStep(At(p.dst, p.sent), p.dst.setting.bounds, p.dst.layer) &&
            InStep(At(p.src, p.sent), p.src.setting.bounds, p.src.layer) &&
            SourcesKnown(tell, p.src.picture, sx, sy, p.dst.picture, area) ==>
              (InStep(At(q.dst, q.sent), p.dst.setting.bounds, p.dst.layer) <==>
               forall x, y :: !ToldTwice(tell, p, sx, sy, area, box, x, y))
  {
    hide ClientAt, Images, Flush, Covered, Waits, Accounted, FullAlpha, TransferInt, SourcesKnown, Told, IsTrim;
    var q := AcrossOut(tell, p, sx, sy, area, box);
    var md, ms := At(p.dst, p.sent), At(p.src, p.sent);
    if box.Empty() || ShouldCombine(p.dst.setting, p.dst.track, box, true) {
      CombinedChanges(LocalOp(tell), p.src.picture, sx, sy, p.dst.picture, area, box);
      MarkedKeeps(p.dst, p.sent, q.dst.picture, box);
      Bystander(ms, [], p.src.setting.bounds, p.src.layer);
      assert p.sent + [] == p.sent;
    } else {
      CrossingKeeps(tell, p, sx, sy, area, box);
      if InStep(md, p.dst.setting.bounds, p.dst.layer) && InStep(ms, p.src.setting.bounds, p.src.layer) &&
         SourcesKnown(tell, p.src.picture, sx, sy, p.dst.picture, area)
      {
        forall x, y | ToldTwice(tell, p, sx, sy, area, box, x, y)
          ensures !InStep(At(q.dst, q.sent), p.dst.setting.bounds, p.dst.layer)
        {
          ToldTwiceShows(tell, p, sx, sy, area, box, x, y);
        }
      }
    }
  }

  /** No pixel is told twice when the client is told by a copy or by a repeatable
      function, when nothing of the destination waits, or when the update joins the
      dirty rectangle. */
  lemma NotTwice(tell: Tell, p: Pair, sx: int, sy: int, area: Rect, box: Rect)
    requires Valid(p.src) && Valid(p.dst)
    requires tell.ByCopy? || Repeatable(tell.op) || (!p.dst.track.dirty && p.dst.track.queue == []) ||
             ShouldCombine(p.dst.setting, p.dst.track, box, true)
    ensures forall x, y :: !ToldTwice(tell, p, sx, sy, area, box, x, y)
  {
    hide Flush, Covered, FullAlpha, TransferInt, Told, Repeatable;
    forall x, y ensures !ToldTwice(tell, p, sx, sy, area, box, x, y) {
      if tell.ByCopy? || Repeatable(tell.op) {
        if (x, y) in p.dst.picture && (x - area.x + sx, y - area.y + sy) in p.src.picture {
          var s, d := p.src.picture[(x - area.x + sx, y - area.y + sy)], p.dst.picture[(x, y)];
          if FullAlpha(TransferInt(LocalOp(tell), s, d)) {
            RepeatingIsHarmless(tell, s, d);
          }
        }
      } else if !p.dst.track.dirty && p.dst.track.queue == [] {
        FlushIdle(p.dst.setting, Combined(LocalOp(tell), p.src.picture, sx, sy, p.dst.picture, area), p.dst.track);
        NothingCovered(x, y);
      }
    }
  }

  // --------------------------------------------------------- within one surface

  /** A copy or transfer within one surface: the client first, if it is told at
      once, then the picture. */
  ghost function WithinOut(tell: Tell, side: Side, sent: seq<Instr>, sx: int, sy: int, area: Rect): Out
    requires Valid(side)
  {
    var result := Combined(LocalOp(tell), side.picture, sx, sy, side.picture, area);
    if ShouldCombine(side.setting, side.track, area, true) then
      Out(side.(track := Marked(side.track, area), picture := result), sent)
    else
      var f := Flush(side.setting, side.picture, side.track);
      Out(side.(track := f.track.(realized := true), picture := result),
          Within(tell, sent, side.layer, f.sends, side.picture, sx, sy, area).After())
  }

  lemma WithinGives(tell: Tell, side: Side, sent: seq<Instr>, sx: int, sy: int, area: Rect, sends: seq<Sending>, x: int, y: int)
    requires Valid(side) && Fits(side, side, sx, sy, area)
    ensures var w := Within(tell, sent, side.layer, sends, side.picture, sx, sy, area);
            var result := Combined(LocalOp(tell), side.picture, sx, sy, side.picture, area);
            && w.GivesAt(result, side.setting.bounds, x, y)
            && (SourcesKnown(tell, side.picture, sx, sy, side.picture, area) ==> !w.DependsAt(result, x, y))
  {
    hide TransferInt, FullAlpha, SourceKnown, Combined, Fits, Sound;
    if area.Has(x, y) {
      AreaPixel(LocalOp(tell), side, side, sx, sy, area, x, y);
    } else if side.setting.bounds.Has(x, y) {
      CombinedElsewhere(LocalOp(tell), side.picture, sx, sy, side.picture, area, x, y);
    }
  }

  lemma WithinKeeps(tell: Tell, side: Side, sent: seq<Instr>, sx: int, sy: int, area: Rect)
    requires Valid(side) && Fits(side, side, sx, sy, area)
    ensures var o := WithinOut(tell, side, sent, sx, sy, area);
            && Valid(o.side) && Accounted(At(side, sent), At(o.side, o.sent), side.setting.bounds, side.layer)
            && (InStep(At(side, sent), side.setting.bounds, side.layer) &&
                SourcesKnown(tell, side.picture, sx, sy, side.picture, area) ==>
                  InStep(At(o.side, o.sent), side.setting.bounds, side.layer))
  {
    hide ClientAt, Images, Flush, Covered, Waits, Accounted, InStep, FullAlpha, TransferInt, SourcesKnown, ShouldCombine, Marked;
    hide Fits, Within.GivesAt, Within.DependsAt;
    var o := WithinOut(tell, side, sent, sx, sy, area);
    if ShouldCombine(side.setting, side.track, area, true) {
      MarkedKeeps(side, sent, o.side.picture, area);
    } else {
      var f := Flush(side.setting, side.picture, side.track);
      var w := Within(tell, sent, side.layer, f.sends, side.picture, sx, sy, area);
      FlushedAway(side, side.picture);
      forall x, y
        ensures w.GivesAt(o.side.picture, side.setting.bounds, x, y)
        ensures SourcesKnown(tell, side.picture, sx, sy, side.picture, area) ==> !w.DependsAt(o.side.picture, x, y)
      {
        WithinGives(tell, side, sent, sx, sy, area, f.sends, x, y);
      }
      WithinStep(w, At(side, sent), At(o.side, o.sent), side.setting.bounds);
    }
  }

  lemma ImagesThenTellForOthers(sent: seq<Instr>, more: seq<Instr>, instr: Instr, l: int, x: int, y: int)
    requires l != instr.layer && ClientAt(sent + more, l, x, y) == ClientAt(sent, l, x, y)
    ensures ClientAt(sent + more + [instr], l, x, y) == ClientAt(sent, l, x, y)
  {
    hide ClientAt, Over, TransferInt, Opaqued;
    ReplayOne(sent + more, instr, l, x, y);
  }

  /** A third layer sees nothing of a copy or transfer. */
  lemma WithinForOthers(tell: Tell, side: Side, sent: seq<Instr>, sx: int, sy: int, area: Rect)
    requires Valid(side)
    ensures OthersAsBefore(sent, WithinOut(tell, side, sent, sx, sy, area).sent, side.layer)
  {
    hide ClientAt, Images, Flush, ShouldCombine;
    var f := Flush(side.setting, side.picture, side.track);
    ImagesForOthers(sent, side.layer, f.sends, side.picture);
    forall l, x, y | l != side.layer
      ensures ClientAt(WithinOut(tell, side, sent, sx, sy, area).sent, l, x, y) == ClientAt(sent, l, x, y)
    {
      ImagesThenTellForOthers(sent, Images(side.layer, f.sends, side.picture),
                              TellInstr(tell, side.layer, sx, sy, side.layer, area), l, x, y);
    }
  }

  lemma AcrossForOthers(tell: Tell, p: Pair, sx: int, sy: int, area: Rect, box: Rect, l: int, x: int, y: int)
    requires Valid(p.src) && Valid(p.dst) && l != p.src.layer && l != p.dst.layer
    ensures ClientAt(AcrossOut(tell, p, sx, sy, area, box).sent, l, x, y) == ClientAt(p.sent, l, x, y)
  {
    hide ClientAt, Images, Flush, ShouldCombine, Combined, TellInstr;
    var a := Crossing(tell, p, sx, sy, area, box);
    var mid := p.sent + Images(a.dst, a.dstSends, a.result);
    ImagesForOthers(p.sent, a.dst, a.dstSends, a.result);
    ImagesForOthers(mid, a.src, a.srcSends, a.source);
    TellIsFor(tell, a.src, a.sx, a.sy, a.dst, box);
    ReplayOne(a.Flushed(), TellInstr(tell, a.src, a.sx, a.sy, a.dst, box), l, x, y);
  }

  /** A copy depends on no source pixel that is not opaque. */
  lemma CopySourcesKnown(source: Picture, sx: int, sy: int, before: Picture, area: Rect)
    ensures SourcesKnown(ByCopy, source, sx, sy, before, area)
  {
    hide FullAlpha, TransferInt;
  }
}
