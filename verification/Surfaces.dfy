/** Surfaces (src/common/surface.c): a local pixel buffer whose changes reach the
    client late. Each method follows the program and is proved to do what the
    functions on values say. */
module Surfaces {
  import opened Rects
  import opened Bits
  import opened Operators
  import opened Pixels
  import opened Updates
  import opened Clients
  import opened Shipping
  import opened Calls

  /** The socket instructions are written to. */
  class Connection {
    ghost var sent: seq<Instr>

    constructor ()
      ensures sent == []
    {
      sent := [];
    }
  }

  /** The program's own estimate whether an update should join the dirty
      rectangle: the hull is small, costs no more than both updates apart, costs
      at most a quarter more than either one, or continues a downward fill at no
      more than three times the cost. */
  predicate WorthCombining(dirtyRect: Rect, rect: Rect, rectOnly: bool) {
    var hull := Hull(dirtyRect, rect);
    var hullCost := 4096 + hull.width * hull.height;
    var dirtyCost := 4096 + dirtyRect.width * dirtyRect.height;
    var imageCost := 4096 + rect.width * rect.height;
    var updateCost := if rectOnly then CDiv(imageCost, 16) else imageCost;
    || (hull.width <= 64 && hull.height <= 64)
    || hullCost <= updateCost + dirtyCost
    || hullCost - dirtyCost <= CDiv(dirtyCost, 4)
    || hullCost - updateCost <= CDiv(updateCost, 4)
    || (rect.x == dirtyRect.x && rect.y == dirtyRect.Bottom() && hullCost <= (dirtyCost + updateCost) * 3)
  }

  lemma ChangedEdges(box: Rect, changed: Points, before: Picture, after: Picture, area: Rect)
    requires forall p :: p in changed <==> area.Has(p.0, p.1) && Differ(before, after, p.0, p.1)
    requires IsChangeBox(box, changed)
    ensures InColumn(box, before, after, box.x) && InColumn(box, before, after, box.Right() - 1)
    ensures InRow(box, before, after, box.y) && InRow(box, before, after, box.Bottom() - 1)
  {
    hide Differ;
    var left :| left in changed && left.0 == box.x;
    var right :| right in changed && right.0 == box.Right() - 1;
    var top :| top in changed && top.1 == box.y;
    var bottom :| bottom in changed && bottom.1 == box.Bottom() - 1;
    assert box.Has(box.x, left.1) && Differ(before, after, box.x, left.1);
    assert box.Has(box.Right() - 1, right.1) && Differ(before, after, box.Right() - 1, right.1);
    assert box.Has(top.0, box.y) && Differ(before, after, top.0, box.y);
    assert box.Has(bottom.0, box.Bottom() - 1) && Differ(before, after, bottom.0, box.Bottom() - 1);
  }

  /** The box an update is cut down to, from the points that changed. */
  lemma TrimOfChanges(box: Rect, changed: Points, before: Picture, after: Picture, area: Rect, keepsOne: bool)
    requires forall p :: p in changed <==> area.Has(p.0, p.1) && Differ(before, after, p.0, p.1)
    requires changed != {} ==> IsChangeBox(box, changed) && box.Within(area)
    requires changed == {} ==>
               box == if keepsOne && area.width == 1 && area.height == 1 then area else Rect(area.x, area.y, 0, 0)
    ensures IsTrim(box, before, after, area, keepsOne)
  {
    hide Differ;
    if changed == {} {
      forall x, y | area.Has(x, y) ensures !Differ(before, after, x, y) {
        assert (x, y) !in changed;
      }
    } else {
      ChangedEdges(box, changed, before, after, area);
      var p :| p in changed;
      assert area.Has(p.0, p.1) && Differ(before, after, p.0, p.1);
      forall x, y | area.Has(x, y) && Differ(before, after, x, y) ensures box.Has(x, y) {
        assert (x, y) in changed;
      }
    }
  }

  lemma IdleKeeps(side: Side, sent: seq<Instr>)
    requires Calls.Valid(side)
    ensures Accounted(At(side, sent), At(side, sent), side.setting.bounds, side.layer)
  {
    Bystander(At(side, sent), [], side.setting.bounds, side.layer);
    assert sent + [] == sent;
  }

  ghost function MovedTo(op: TransferFn, source: Picture, sx: int, sy: int, before: Picture, area: Rect, x: int, y: int): Color
    requires (x, y) in before
  {
    if area.Has(x, y) && (x - area.x + sx, y - area.y + sy) in source
    then TransferInt(op, source[(x - area.x + sx, y - area.y + sy)], before[(x, y)])
    else before[(x, y)]
  }

  lemma IsCombined(op: TransferFn, source: Picture, sx: int, sy: int, before: Picture, area: Rect, after: Picture)
    requires forall p: (int, int) :: p in after <==> p in before
    requires forall x, y :: (x, y) in before ==> after[(x, y)] == MovedTo(op, source, sx, sy, before, area, x, y)
    ensures after == Combined(op, source, sx, sy, before, area)
  {
    hide TransferInt;
    forall p: (int, int) | p in before ensures after[p] == Combined(op, source, sx, sy, before, area)[p] {
      assert p == (p.0, p.1);
    }
  }

  lemma EmptyAcross(tell: Tell, p: Pair, sx: int, sy: int, area: Rect, box: Rect)
    requires Calls.Valid(p.src) && Calls.Valid(p.dst) && box.Empty()
    ensures AcrossOut(tell, p, sx, sy, area, box) ==
            p.(dst := p.dst.(picture := Combined(LocalOp(tell), p.src.picture, sx, sy, p.dst.picture, area)))
  {
  }

  lemma NoChange(picture: Picture, box: Rect)
    ensures ChangesOnly(picture, picture, box)
  {
  }

  lemma EmptyPostpone(side: Side, sent: seq<Instr>, picture: Picture, box: Rect)
    requires Calls.Valid(side) && box.Empty()
    ensures PostponeOut(side, sent, picture, box) == Out(side.(picture := picture), sent)
  {
  }

  lemma EmptySet(side: Side, sent: seq<Instr>, picture: Picture, box: Rect, color: Color)
    requires Calls.Valid(side) && box.Empty()
    ensures SetOut(side, sent, picture, box, color) == Out(side.(picture := picture), sent)
  {
  }

  lemma TrimIsInside(box: Rect, before: Picture, after: Picture, area: Rect, keepsOne: bool)
    requires IsTrim(box, before, after, area, keepsOne)
    ensures box.Empty() || box.Within(area)
  {
  }

  lemma SentKeeps(s: Setting, picture: Picture, t: Track)
    ensures var u := Sent(s, picture, t); !u.dirty && u.queue == t.queue
  {
  }

  class Surface {
    const socket: Connection
    const layer: int
    const width: nat
    const height: nat
    const buffer: array2<Color>
    /** The estimate whether an update is worth combining; any will do. */
    const worth: (Rect, Rect, bool) -> bool
    var realized: bool
    var dirty: bool
    var dirtyRect: Rect
    var queue: seq<QueuedRect>
    /** The formats wanted for the next images. */
    var formats: seq<Encoding>
    var clipped: bool
    var clipRect: Rect
    const bounds: Rect := Rect(0, 0, width, height)

    ghost predicate Sized() {
      buffer.Length0 == height && buffer.Length1 == width
    }

    ghost function Tracked(): Track
      reads this
    {
      Track(realized, dirty, dirtyRect, queue, formats)
    }

    ghost predicate Valid()
      reads this
    {
      Sized() && Sound(Tracked()) && (clipped ==> clipRect.Within(bounds))
    }

    ghost function Rules(): Setting { Setting(bounds, worth) }

    ghost function Contents(): Picture
      requires Sized()
      reads buffer
    {
      imap p: (int, int) | bounds.Has(p.0, p.1) :: buffer[p.1, p.0]
    }

    /** The surface as a value. */
    ghost function State(): Side
      requires Sized()
      reads this, buffer
    {
      Side(Rules(), layer, Tracked(), Contents())
    }

    ghost function Now(): Moment
      requires Sized()
      reads this, buffer, socket
    {
      At(State(), socket.sent)
    }

    /** Every opaque pixel waits to be sent or is what the client shows. */
    ghost predicate Synced()
      requires Sized()
      reads this, buffer, socket
    {
      InStep(Now(), bounds, layer)
    }

    lemma StateIsValid()
      requires Valid()
      ensures Calls.Valid(State())
    {
    }

    /** guac_common_surface_alloc. The client starts every layer and buffer
        transparent, as the local buffer is. */
    constructor (socket: Connection, layer: int, w: nat, h: nat, worth: (Rect, Rect, bool) -> bool, formats: seq<Encoding>)
      ensures Valid() && Synced() && fresh(buffer)
      ensures this.socket == socket && this.layer == layer && width == w && height == h && this.worth == worth
      ensures Tracked() == Track(layer >= 0, false, Rect(0, 0, 0, 0), [], formats) && !clipped
      ensures forall p :: p in Contents() ==> Contents()[p] == 0
    {
      this.socket := socket;
      this.layer := layer;
      width := w;
      height := h;
      buffer := new Color[h, w]((_, _) => 0);
      this.worth := worth;
      realized := layer >= 0;
      dirty := false;
      dirtyRect := Rect(0, 0, 0, 0);
      queue := [];
      this.formats := formats;
      clipped := false;
      clipRect := Rect(0, 0, 0, 0);
      new;
      hide ClientAt;
      TransparentIsNotOpaque();
    }

    /** __guac_common_should_combine. */
    predicate ShouldCombine(rect: Rect, rectOnly: bool)
      reads this
    {
      !realized || (dirty && worth(dirtyRect, rect, rectOnly))
    }

    /** __guac_common_mark_dirty. */
    method MarkDirty(rect: Rect)
      modifies this`dirty, this`dirtyRect
      ensures Tracked() == Marked(old(Tracked()), rect)
    {
      if rect.Empty() {
        return;
      }
      if dirty {
        dirtyRect := Extend(dirtyRect, rect);
      } else {
        dirtyRect := rect;
        dirty := true;
      }
    }

    /** __guac_common_surface_flush_to_queue; there must be room. */
    method FlushToQueue()
      requires |queue| < QUEUE_SIZE
      modifies this`dirty, this`queue
      ensures Tracked() == ToQueue(old(Tracked()))
    {
      if dirty {
        queue := queue + [QueuedRect(dirtyRect, false)];
        dirty := false;
      }
    }

    /** The inner loop of __guac_common_surface_flush: starting from one queued
        rectangle, take in every later one worth combining. */
    method GatherFrom(i: nat) returns (combined: nat)
      requires i < |queue|
      modifies this`dirty, this`dirtyRect, this`queue
      ensures Gathering(Tracked(), combined) == Gather(Rules(), old(Tracked()), i)
    {
      combined := 0;
      var j := i;
      while j < |queue|
        invariant i <= j <= |queue|
        invariant var rest := Gather(Rules(), Tracked(), j);
                  Gathering(rest.track, combined + rest.combined) == Gather(Rules(), old(Tracked()), i)
        decreases |queue| - j
      {
        if !queue[j].flushed {
          var rect := Constrain(queue[j].rect, bounds);
          if rect.Empty() {
            queue := queue[j := QueuedRect(rect, true)];
          } else if ShouldCombine(rect, false) || !dirty {
            MarkDirty(rect);
            queue := queue[j := QueuedRect(rect, true)];
            combined := combined + 1;
          } else {
            queue := queue[j := QueuedRect(rect, false)];
          }
        }
        j := j + 1;
      }
    }

    /** __guac_common_surface_is_opaque. */
    method IsOpaque(rect: Rect) returns (full: bool)
      requires Sized() && rect.Within(bounds)
      ensures full == OpaqueIn(Contents(), rect)
    {
      hide FullAlpha;
      var y := rect.y;
      while y < rect.Bottom()
        invariant forall px, py :: rect.Has(px, py) && py < y ==> FullAlpha(buffer[py, px])
      {
        var x := rect.x;
        while x < rect.Right()
          invariant forall px, py :: rect.Has(px, py) && (py < y || (py == y && px < x)) ==> FullAlpha(buffer[py, px])
        {
          if !FullAlpha(buffer[y, x]) {
            assert rect.Has(x, y) && (x, y) in Contents();
            return false;
          }
          x := x + 1;
        }
        y := y + 1;
      }
      full := true;
    }

    /** Send an area as an image, which the dirty rectangle becomes. */
    method SendAs(area: Rect, rgb: bool, clear: bool)
      requires Sized()
      modifies this`dirty, this`dirtyRect, this`realized, socket
      ensures realized && !dirty && dirtyRect == area
      ensures socket.sent == old(socket.sent) + ImageInstrs(layer, Sending(area, rgb, clear), Contents())
    {
      dirtyRect := area;
      if clear {
        socket.sent := socket.sent + [Clear(layer, dirtyRect)];
      }
      socket.sent := socket.sent + [Img(layer, dirtyRect, Contents(), rgb)];
      realized := true;
      dirty := false;
    }

    /** __guac_common_surface_flush_to_png, _jpeg and _webp: send the dirty
        rectangle as an image, grown to the encoder's block grid. */
    method SendImage()
      requires Sized() && dirty && !dirtyRect.Empty() && dirtyRect.Within(bounds)
      modifies this`dirty, this`dirtyRect, this`realized, this`formats, socket
      ensures Tracked() == Sent(Rules(), Contents(), old(Tracked()))
      ensures socket.sent == old(socket.sent) + ImageInstrs(layer, SendingOf(Rules(), Contents(), old(Tracked())), Contents())
    {
      hide Grown, OpaqueIn, ImageInstrs;
      var full := IsOpaque(dirtyRect);
      var wanted := if formats == [] then Png else formats[0];
      formats := if formats == [] then [] else formats[1..];
      if wanted == Webp {
        var _, grown := ExpandToGrid(WEBP_BLOCK_SIZE, dirtyRect, bounds);
        SendAs(grown, full, false);
      } else if full && wanted == Jpeg {
        var _, grown := ExpandToGrid(JPEG_BLOCK_SIZE, dirtyRect, bounds);
        SendAs(grown, true, false);
      } else {
        SendAs(dirtyRect, full, !full);
      }
    }

    /** One round of the outer loop of __guac_common_surface_flush. */
    method FlushRound(i: nat, originalLength: nat) returns (ghost sends: seq<Sending>)
      requires Sized() && i < |queue| <= QUEUE_SIZE && AtRound(Tracked(), i)
      modifies this`dirty, this`dirtyRect, this`queue, this`realized, this`formats, socket
      ensures |queue| <= QUEUE_SIZE && AtRound(Tracked(), i + 1)
      ensures Resumes(Rules(), Contents(), originalLength, old(Tracked()), i, sends, Tracked(), i + 1)
      ensures socket.sent == old(socket.sent) + Images(layer, sends, Contents())
    {
      hide Gather, SendingOf, Sent;
      sends := [];
      assert socket.sent + [] == socket.sent;
      if !queue[i].flushed {
        GatherKeeps(Rules(), Tracked(), i, 0, 0);
        var combined := GatherFrom(i);
        if (combined > 1 || i < originalLength) && |queue| < QUEUE_SIZE {
          FlushToQueue();
        } else if dirty {
          SentKeeps(Rules(), Contents(), Tracked());
          sends := [SendingOf(Rules(), Contents(), Tracked())];
          assert Images(layer, sends, Contents()) == ImageInstrs(layer, sends[0], Contents());
          SendImage();
        }
      }
    }

    /** The outer loop of __guac_common_surface_flush. It appends merged rectangles to
        the queue it walks, yet never beyond its capacity. */
    method FlushRounds(originalLength: nat) returns (ghost sends: seq<Sending>)
      requires Sized() && |queue| <= QUEUE_SIZE && !dirty
      modifies this`dirty, this`dirtyRect, this`queue, this`realized, this`formats, socket
      ensures Flushed(Tracked(), sends) == FlushLoop(Rules(), Contents(), old(Tracked()), 0, originalLength)
      ensures socket.sent == old(socket.sent) + Images(layer, sends, Contents())
    {
      hide FlushLoop, Images, Resumes, AtRound;
      ghost var start := Tracked();
      sends := [];
      NoImages(layer, Contents());
      ResumesAtOnce(Rules(), Contents(), originalLength, start, 0);
      StartsRounds(start);
      var i := 0;
      while i < |queue|
        invariant 0 <= i && |queue| <= QUEUE_SIZE && AtRound(Tracked(), i)
        invariant Resumes(Rules(), Contents(), originalLength, start, 0, sends, Tracked(), i)
        invariant socket.sent == old(socket.sent) + Images(layer, sends, Contents())
        decreases QUEUE_SIZE - i
      {
        ghost var before := Tracked();
        ghost var more := FlushRound(i, originalLength);
        ResumesOn(Rules(), Contents(), originalLength, start, 0, sends, before, i, more, Tracked(), i + 1);
        ImagesJoin(layer, sends, more, Contents());
        sends := sends + more;
        i := i + 1;
      }
      ResumesToEnd(Rules(), Contents(), originalLength, start, 0, sends, Tracked(), i);
    }

    /** __guac_common_surface_flush. */
    method FlushImages() returns (ghost sends: seq<Sending>)
      requires Sized() && Sound(Tracked())
      modifies this`dirty, this`dirtyRect, this`queue, this`realized, this`formats, socket
      ensures Flushed(Tracked(), sends) == Updates.Flush(Rules(), Contents(), old(Tracked()))
      ensures socket.sent == old(socket.sent) + Images(layer, sends, Contents())
    {
      hide FlushLoop, Images, Sort;
      FlushToQueue();
      var originalLength := |queue|;
      queue := Sort(queue);
      sends := FlushRounds(originalLength);
      queue := [];
    }

    /** guac_common_surface_flush, as far as pixels go. The client then shows of every
        pixel what the images sent make of it, and nothing waits. */
    method Flush() returns (ghost sends: seq<Sending>)
      requires Valid()
      modifies this`dirty, this`dirtyRect, this`queue, this`realized, this`formats, socket
      ensures Valid() && !dirty && queue == []
      ensures Out(State(), socket.sent) == FlushOut(old(State()), old(socket.sent))
      ensures sends == Updates.Flush(Rules(), Contents(), old(Tracked())).sends
      ensures Keeps(old(Now()), Now(), bounds, layer) && OthersAsBefore(old(socket.sent), socket.sent, layer)
      ensures forall x, y :: bounds.Has(x, y) ==>
                ClientAt(socket.sent, layer, x, y) ==
                PixelAfter(sends, x, y, buffer[y, x], ClientAt(old(socket.sent), layer, x, y))
      ensures (forall f :: f in old(formats) ==> f == Png) ==>
                forall x, y :: bounds.Has(x, y) && old(Waits(Tracked(), x, y)) ==>
                  ClientAt(socket.sent, layer, x, y) == buffer[y, x]
      ensures Webp !in old(formats) ==>
                forall x, y :: bounds.Has(x, y) && old(Waits(Tracked(), x, y)) ==>
                  ClientAt(socket.sent, layer, x, y) ==
                  if DrawnWithAlpha(socket.sent, layer, x, y) then buffer[y, x] else Opaqued(buffer[y, x])
    {
      hide ClientAt, PixelAfter, Images, Updates.Flush, Keeps, OthersAsBefore, Waits, DrawnWithAlpha, Opaqued, Wanted;
      StateIsValid();
      WantedFormats(formats);
      ghost var before, start := State(), socket.sent;
      forall x, y | bounds.Has(x, y) && Waits(before.track, x, y)
        ensures Wanted(formats, true) ==> FlushShows(before, start, true, x, y)
        ensures Wanted(formats, false) ==> FlushShows(before, start, false, x, y)
      {
        if Wanted(formats, true) {
          FlushIsShown(before, start, true, x, y);
        }
        if Wanted(formats, false) {
          FlushIsShown(before, start, false, x, y);
        }
      }
      FlushKeeps(State(), socket.sent);
      sends := FlushImages();
    }

    /** __guac_common_surface_flush_deferred. */
    method FlushDeferred() returns (ghost sends: seq<Sending>)
      requires Valid()
      modifies this`dirty, this`dirtyRect, this`queue, this`realized, this`formats, socket
      ensures Flushed(Tracked(), sends) == Deferred(Rules(), Contents(), old(Tracked()))
      ensures socket.sent == old(socket.sent) + Images(layer, sends, Contents())
    {
      hide Updates.Flush, Images;
      sends := [];
      NoImages(layer, Contents());
      if !dirty {
        return;
      }
      if |queue| == QUEUE_SIZE - 1 {
        FlushCovers(Rules(), Contents(), Tracked(), 0, 0);
        sends := FlushImages();
      }
      FlushToQueue();
    }

    /** The common end of draw, paint and non-opaque set: the box has been changed
        locally and now becomes part of what waits to be sent. */
    method PostponeUpdate(box: Rect, ghost before: Side)
      requires Valid() && !box.Empty() && before == State().(picture := before.picture) && Calls.Valid(before)
      modifies this`dirty, this`dirtyRect, this`queue, this`realized, this`formats, socket
      ensures Out(State(), socket.sent) == PostponeOut(before, old(socket.sent), Contents(), box)
    {
      hide Deferred, Images;
      NoImages(layer, Contents());
      if !ShouldCombine(box, false) {
        ghost var sends := FlushDeferred();
      }
      MarkDirty(box);
    }

    /** The area operations are clipped to. */
    function Clip(): Rect
      reads this
    {
      if clipped then clipRect else bounds
    }

    /** Change every pixel of an area, and cut the area down to what changed. */
    method ChangeArea(f: (int, int, Color) -> Color, area: Rect, slack: nat) returns (box: Rect)
      requires Sized() && !area.Empty() && area.Within(bounds)
      modifies buffer
      ensures forall py, px :: bounds.Has(px, py) ==>
                buffer[py, px] == if area.Has(px, py) then f(px, py, old(buffer[py, px])) else old(buffer[py, px])
      ensures IsTrim(box, old(Contents()), Contents(), area, slack == 0)
      ensures ChangesOnly(old(Contents()), Contents(), box) && ChangesOnly(old(Contents()), Contents(), area)
      ensures box.Empty() || box.Within(area)
    {
      hide IsChangeBox, InRect, IsTrim;
      ghost var before := Contents();
      ghost var changed;
      box, changed := Update(f, buffer, area, slack);
      TrimOfChanges(box, changed, before, Contents(), area, slack == 0);
      TrimIsInside(box, before, Contents(), area, slack == 0);
    }

    /** guac_common_surface_draw. Each pixel inside image and clip gets the drawn
        colour; the part that changed becomes part of what waits. */
    method Draw(x: int, y: int, image: Image, ignoreAlpha: bool) returns (box: Rect)
      requires Valid()
      modifies this`dirty, this`dirtyRect, this`queue, this`realized, this`formats, buffer, socket
      ensures Valid()
      ensures forall py, px :: bounds.Has(px, py) ==>
                buffer[py, px] == if Rect(x, y, image.width, image.height).Has(px, py) && Clip().Has(px, py)
                                  then DrawnColor(ignoreAlpha, image, x, y, px, py, old(buffer[py, px]))
                                  else old(buffer[py, px])
      ensures var area := Meet(Rect(x, y, image.width, image.height), Clip());
              if area.Empty() then box.Empty() else IsTrim(box, old(Contents()), Contents(), area, false)
      ensures Out(State(), socket.sent) == PostponeOut(old(State()), old(socket.sent), Contents(), box)
      ensures Keeps(old(Now()), Now(), bounds, layer) && OthersAsBefore(old(socket.sent), socket.sent, layer)
    {
      hide ClientAt, DrawnColor, PostponeOut, Keeps, OthersAsBefore, IsTrim, Sound, ChangesOnly;
      StateIsValid();
      ghost var before := State();
      box := Rect(0, 0, 0, 0);
      var rect := Constrain(Rect(x, y, image.width, image.height), Clip());
      if !rect.Empty() {
        var f := (px, py, c) => DrawnColor(ignoreAlpha, image, x, y, px, py, c);
        box := ChangeArea(f, rect, 1);
      } else {
        NoChange(before.picture, box);
      }
      PostponeKeeps(before, socket.sent, Contents(), box);
      if box.Empty() {
        EmptyPostpone(before, socket.sent, Contents(), box);
      } else {
        PostponeUpdate(box, before);
      }
    }

    /** guac_common_surface_paint: fill with a colour wherever the mask is not
        fully transparent. The whole clipped area counts as updated. */
    method Paint(x: int, y: int, mask: Image, red: bv8, green: bv8, blue: bv8) returns (box: Rect)
      requires Valid()
      modifies this`dirty, this`dirtyRect, this`queue, this`realized, this`formats, buffer, socket
      ensures Valid() && box == Meet(Rect(x, y, mask.width, mask.height), Clip())
      ensures forall py, px :: bounds.Has(px, py) ==>
                buffer[py, px] == if Rect(x, y, mask.width, mask.height).Has(px, py) && Clip().Has(px, py)
                                  then PaintedColor(mask, OpaqueColor(red, green, blue), x, y, px, py, old(buffer[py, px]))
                                  else old(buffer[py, px])
      ensures Out(State(), socket.sent) == PostponeOut(old(State()), old(socket.sent), Contents(), box)
      ensures Keeps(old(Now()), Now(), bounds, layer) && OthersAsBefore(old(socket.sent), socket.sent, layer)
    {
      hide ClientAt, PaintedColor, OpaqueColor, PostponeOut, Keeps, OthersAsBefore, IsTrim, Sound, ChangesOnly;
      StateIsValid();
      ghost var before := State();
      var rect := Constrain(Rect(x, y, mask.width, mask.height), Clip());
      box := rect;
      if !rect.Empty() {
        var color := OpaqueColor(red, green, blue);
        var f := (px, py, c) => PaintedColor(mask, color, x, y, px, py, c);
        var _ := ChangeArea(f, rect, 1);
      } else {
        NoChange(before.picture, box);
      }
      PostponeKeeps(before, socket.sent, Contents(), box);
      if rect.Empty() {
        EmptyPostpone(before, socket.sent, Contents(), box);
      } else {
        PostponeUpdate(rect, before);
      }
    }

    /** The end of guac_common_surface_set: a non-opaque fill is postponed; an opaque
        one joins the dirty rectangle or is sent after everything that waits. */
    method ShipFill(box: Rect, color: Color, ghost before: Side)
      requires Valid() && !box.Empty() && before == State().(picture := before.picture) && Calls.Valid(before)
      modifies this`dirty, this`dirtyRect, this`queue, this`realized, this`formats, socket
      ensures Out(State(), socket.sent) == SetOut(before, old(socket.sent), Contents(), box, color)
    {
      hide FullAlpha, PostponeOut, Updates.Flush, Images;
      if !FullAlpha(color) {
        PostponeUpdate(box, before);
      } else if ShouldCombine(box, true) {
        MarkDirty(box);
      } else {
        ghost var sends := FlushImages();
        socket.sent := socket.sent + [CFill(layer, box, color)];
        realized := true;
      }
    }

    /** guac_common_surface_set. */
    method Set(x: int, y: int, w: int, h: int, color: Color) returns (box: Rect)
      requires Valid()
      modifies this`dirty, this`dirtyRect, this`queue, this`realized, this`formats, buffer, socket
      ensures Valid()
      ensures forall py, px :: bounds.Has(px, py) ==>
                buffer[py, px] == if Rect(x, y, w, h).Has(px, py) && Clip().Has(px, py) then color else old(buffer[py, px])
      ensures Out(State(), socket.sent) == SetOut(old(State()), old(socket.sent), Contents(), box, color)
      ensures Keeps(old(Now()), Now(), bounds, layer) && OthersAsBefore(old(socket.sent), socket.sent, layer)
      ensures var area := Meet(Rect(x, y, w, h), Clip());
              if area.Empty() then box.Empty() else IsTrim(box, old(Contents()), Contents(), area, true)
    {
      hide ClientAt, SetOut, Keeps, OthersAsBefore, IsTrim, Sound, FullAlpha, ChangesOnly;
      StateIsValid();
      ghost var before := State();
      box := Rect(0, 0, 0, 0);
      var rect := Constrain(Rect(x, y, w, h), Clip());
      if !rect.Empty() {
        var f := (px: int, py: int, c: Color) => color;
        box := ChangeArea(f, rect, 0);
      } else {
        NoChange(before.picture, box);
      }
      SetKeeps(before, socket.sent, Contents(), box, color);
      if box.Empty() {
        EmptySet(before, socket.sent, Contents(), box, color);
      } else {
        ShipFill(box, color, before);
      }
    }

    /** guac_common_surface_clip. */
    method SetClip(x: int, y: int, w: int, h: int)
      requires Valid()
      modifies this`clipped, this`clipRect
      ensures Valid() && clipped
      ensures forall px, py :: Clip().Has(px, py) <==> old(Clip()).Has(px, py) && Rect(x, y, w, h).Has(px, py)
    {
      if !clipped {
        clipRect := Rect(0, 0, width, height);
        clipped := true;
      }
      clipRect := Constrain(clipRect, Rect(x, y, w, h));
    }

    /** guac_common_surface_reset_clip. */
    method ResetClip()
      requires Valid()
      modifies this`clipped
      ensures Valid() && !clipped && Clip() == bounds
    {
      clipped := false;
    }

    /** The pixels of a transfer, and the part of the area that changed. */
    method TransferPixels(op: TransferFn, sx: int, sy: int, dst: Surface, area: Rect) returns (tx: int, ty: int, box: Rect)
      requires Sized() && dst.Sized()
      requires !area.Empty() && area.Within(dst.bounds) && Rect(sx, sy, area.width, area.height).Within(bounds)
      modifies dst.buffer
      ensures forall py, px :: area.Has(px, py) ==>
                dst.buffer[py, px] == TransferInt(op, old(buffer[py - area.y + sy, px - area.x + sx]), old(dst.buffer[py, px])) &&
                Follows(op, old(buffer[py - area.y + sy, px - area.x + sx]), old(dst.buffer[py, px]), dst.buffer[py, px])
      ensures forall py, px :: dst.bounds.Has(px, py) && !area.Has(px, py) ==> dst.buffer[py, px] == old(dst.buffer[py, px])
      ensures IsTrim(box, old(dst.Contents()), dst.Contents(), area, true)
      ensures tx == sx + (box.x - area.x) && ty == sy + (box.y - area.y)
    {
      hide TransferInt, Follows, IsChangeBox, InRect, IsTrim;
      ghost var before := dst.Contents();
      var f := (s, d) => TransferInt(op, s, d);
      ghost var changed;
      tx, ty, box, changed := TransferWith(buffer, sx, sy, f, dst.buffer, area);
      forall s, d ensures Follows(op, s, d, TransferInt(op, s, d)) {
        TransferFollows(op, s, d);
      }
      TrimOfChanges(box, changed, before, dst.Contents(), area, true);
    }

    /** The local half of a copy or transfer: every pixel of the area from old source
        and old destination, also when a surface is its own source. */
    method MovePixels(op: TransferFn, sx: int, sy: int, dst: Surface, area: Rect) returns (tx: int, ty: int, box: Rect)
      requires Sized() && dst.Sized() && (this != dst ==> buffer != dst.buffer)
      requires !area.Empty() && area.Within(dst.bounds) && Rect(sx, sy, area.width, area.height).Within(bounds)
      modifies dst.buffer
      ensures dst.Contents() == Combined(op, old(Contents()), sx, sy, old(dst.Contents()), area)
      ensures this != dst ==> Contents() == old(Contents())
      ensures IsTrim(box, old(dst.Contents()), dst.Contents(), area, true)
      ensures tx == sx + (box.x - area.x) && ty == sy + (box.y - area.y)
    {
      hide TransferInt, IsTrim, Combined;
      ghost var source, before := Contents(), dst.Contents();
      tx, ty, box := TransferPixels(op, sx, sy, dst, area);
      ghost var after := dst.Contents();
      forall x, y | dst.bounds.Has(x, y) ensures after[(x, y)] == MovedTo(op, source, sx, sy, before, area, x, y) {
        if area.Has(x, y) {
          assert bounds.Has(x - area.x + sx, y - area.y + sy);
        }
      }
      IsCombined(op, source, sx, sy, before, area, after);
    }

    /** Flush both surfaces, the destination first, and tell the client. */
    method FlushAndTell(tell: Tell, tx: int, ty: int, dst: Surface, box: Rect)
      requires Valid() && dst.Valid() && socket == dst.socket && this != dst
      modifies this`dirty, this`dirtyRect, this`queue, this`realized, this`formats
      modifies dst`dirty, dst`dirtyRect, dst`queue, dst`realized, dst`formats, socket
      ensures Tracked() == Updates.Flush(Rules(), Contents(), old(Tracked())).track
      ensures dst.Tracked() == Updates.Flush(dst.Rules(), dst.Contents(), old(dst.Tracked())).track.(realized := true)
      ensures socket.sent ==
              Across(tell, old(socket.sent), dst.layer,
                     Updates.Flush(dst.Rules(), dst.Contents(), old(dst.Tracked())).sends, dst.Contents(),
                     layer, Updates.Flush(Rules(), Contents(), old(Tracked())).sends, Contents(), tx, ty, box).After()
    {
      hide Updates.Flush, Images, TellInstr;
      ghost var dstSends := dst.FlushImages();
      ghost var srcSends := FlushImages();
      socket.sent := socket.sent + [TellInstr(tell, layer, tx, ty, dst.layer, box)];
      dst.realized := true;
    }

    /** Tell the client of a change already made locally, now or later. */
    method TellAcross(tell: Tell, tx: int, ty: int, dst: Surface, box: Rect, ghost p: Pair, ghost sx: int, ghost sy: int,
                      ghost area: Rect)
      requires Valid() && dst.Valid() && socket == dst.socket && this != dst && Calls.Valid(p.src) && Calls.Valid(p.dst)
      requires p.src == State() && p.dst == dst.State().(picture := p.dst.picture) && p.sent == socket.sent
      requires dst.Contents() == Combined(LocalOp(tell), p.src.picture, sx, sy, p.dst.picture, area)
      requires tx == sx + (box.x - area.x) && ty == sy + (box.y - area.y) && !box.Empty()
      modifies this`dirty, this`dirtyRect, this`queue, this`realized, this`formats
      modifies dst`dirty, dst`dirtyRect, dst`queue, dst`realized, dst`formats, socket
      ensures Pair(State(), dst.State(), socket.sent) == AcrossOut(tell, p, sx, sy, area, box)
    {
      hide Updates.Flush, Images, TellInstr, LocalOp, Combined, Calls.Valid, Marked, Sound;
      ghost var source, result := Contents(), dst.Contents();
      if dst.ShouldCombine(box, true) {
        dst.MarkDirty(box);
      } else {
        FlushAndTell(tell, tx, ty, dst, box);
      }
      assert Contents() == source && dst.Contents() == result;
    }

    /** A copy or transfer between two surfaces: the local buffer first, then the
        client. */
    method MoveAcross(tell: Tell, sx: int, sy: int, dst: Surface, area: Rect) returns (box: Rect)
      requires Valid() && dst.Valid() && socket == dst.socket && this != dst && layer != dst.layer && buffer != dst.buffer
      requires !area.Empty() && area.Within(dst.bounds) && Rect(sx, sy, area.width, area.height).Within(bounds)
      modifies this`dirty, this`dirtyRect, this`queue, this`realized, this`formats
      modifies dst`dirty, dst`dirtyRect, dst`queue, dst`realized, dst`formats, dst.buffer, socket
      ensures Valid() && dst.Valid() && Contents() == old(Contents())
      ensures dst.Contents() == Combined(LocalOp(tell), old(Contents()), sx, sy, old(dst.Contents()), area)
      ensures Meets(tell, old(Pair(State(), dst.State(), socket.sent)), sx, sy, area, box)
      ensures Pair(State(), dst.State(), socket.sent) ==
              AcrossOut(tell, old(Pair(State(), dst.State(), socket.sent)), sx, sy, area, box)
    {
      hide Updates.Flush, LocalOp, Combined, IsTrim, AcrossOut, Sound, Accounted, InStep, Keeps, SourcesKnown, ToldTwice, At;
      StateIsValid();
      dst.StateIsValid();
      ghost var p := Pair(State(), dst.State(), socket.sent);
      var tx, ty, trimmed := MovePixels(LocalOp(tell), sx, sy, dst, area);
      box := trimmed;
      AcrossKeeps(tell, p, sx, sy, area, box);
      if box.Empty() {
        EmptyAcross(tell, p, sx, sy, area, box);
      } else {
        TellAcross(tell, tx, ty, dst, box, p, sx, sy, area);
      }
    }

    /** The same when a surface is its own source: the second flush has nothing left
        to do. */
    method FlushAndTellSelf(tell: Tell, sx: int, sy: int, area: Rect)
      requires Valid()
      modifies this`dirty, this`dirtyRect, this`queue, this`realized, this`formats, socket
      ensures Tracked() == Updates.Flush(Rules(), Contents(), old(Tracked())).track.(realized := true)
      ensures socket.sent ==
              Within(tell, old(socket.sent), layer, Updates.Flush(Rules(), Contents(), old(Tracked())).sends, Contents(),
                     sx, sy, area).After()
    {
      hide Updates.Flush, Images, TellInstr;
      FlushCovers(Rules(), Contents(), Tracked(), 0, 0);
      ghost var sends := FlushImages();
      FlushIdle(Rules(), Contents(), Tracked());
      NoImages(layer, Contents());
      ghost var again := FlushImages();
      socket.sent := socket.sent + [TellInstr(tell, layer, sx, sy, layer, area)];
      realized := true;
    }

    /** A copy or transfer within one surface: the client first, then the local
        buffer. */
    method MoveWithin(tell: Tell, sx: int, sy: int, area: Rect)
      requires Valid()
      requires !area.Empty() && area.Within(bounds) && Rect(sx, sy, area.width, area.height).Within(bounds)
      modifies this`dirty, this`dirtyRect, this`queue, this`realized, this`formats, buffer, socket
      ensures Valid()
      ensures Contents() == Combined(LocalOp(tell), old(Contents()), sx, sy, old(Contents()), area)
      ensures Out(State(), socket.sent) == WithinOut(tell, old(State()), old(socket.sent), sx, sy, area)
    {
      hide Updates.Flush, Images, TellInstr, LocalOp, Combined, IsTrim, Sound, Marked, Accounted, InStep, SourcesKnown;
      StateIsValid();
      WithinKeeps(tell, State(), socket.sent, sx, sy, area);
      if ShouldCombine(area, true) {
        MarkDirty(area);
      } else {
        FlushAndTellSelf(tell, sx, sy, area);
      }
      var _, _, _ := MovePixels(LocalOp(tell), sx, sy, this, area);
    }

    /** The pixels a copy or transfer reaches: inside the requested area, with a source
        pixel inside the source surface, and inside the destination's clip. */
    ghost predicate Reached(sx: int, sy: int, w: int, h: int, dst: Surface, dx: int, dy: int, x: int, y: int)
      reads dst
    {
      Rect(dx, dy, w, h).Has(x, y) && bounds.Has(x - dx + sx, y - dy + sy) && dst.Clip().Has(x, y)
    }

    /** Clip a copy or transfer at both ends. */
    method ClipMove(sx: int, sy: int, w: int, h: int, dst: Surface, dx: int, dy: int)
      returns (area: Rect, tx: int, ty: int)
      requires dst.Valid()
      ensures forall x, y :: area.Has(x, y) <==> Reached(sx, sy, w, h, dst, dx, dy, x, y)
      ensures tx - area.x == sx - dx && ty - area.y == sy - dy
      ensures !area.Empty() ==> area.Within(dst.bounds) && Rect(tx, ty, area.width, area.height).Within(bounds)
    {
      var source := Constrain(Rect(sx, sy, w, h), bounds);
      if source.Empty() {
        return Rect(dx, dy, 0, 0), sx, sy;
      }
      var dx', dy' := dx + (source.x - sx), dy + (source.y - sy);
      area := Constrain(Rect(dx', dy', source.width, source.height), dst.Clip());
      tx, ty := source.x + (area.x - dx'), source.y + (area.y - dy');
    }

    /** Everything before a copy or transfer. */
    ghost function Together(dst: Surface): Pair
      requires Sized() && dst.Sized()
      reads this, buffer, socket, dst, dst.buffer
    {
      Pair(State(), dst.State(), socket.sent)
    }

    /** guac_common_surface_copy and guac_common_surface_transfer. Every pixel reached
        becomes the function of old source and old destination. Nothing goes
        missing. Provided opaque results do not depend on source pixels that are not
        opaque, a surface that is its own source stays in step, and another
        destination does if and only if no pixel is told twice. */
    method Move(tell: Tell, sx: int, sy: int, w: int, h: int, dst: Surface, dx: int, dy: int)
      returns (area: Rect, tx: int, ty: int, box: Rect)
      requires Valid() && dst.Valid() && socket == dst.socket
      requires this != dst ==> layer != dst.layer && buffer != dst.buffer
      modifies this`dirty, this`dirtyRect, this`queue, this`realized, this`formats
      modifies dst`dirty, dst`dirtyRect, dst`queue, dst`realized, dst`formats, dst.buffer, socket
      ensures Valid() && dst.Valid()
      ensures forall x, y :: area.Has(x, y) <==> Reached(sx, sy, w, h, dst, dx, dy, x, y)
      ensures tx - area.x == sx - dx && ty - area.y == sy - dy
      ensures area.Empty() ==> Together(dst) == old(Together(dst))
      ensures !area.Empty() ==>
                dst.Contents() == Combined(LocalOp(tell), old(Contents()), tx, ty, old(dst.Contents()), area)
      ensures !area.Empty() && this != dst ==>
                && Meets(tell, old(Together(dst)), tx, ty, area, box)
                && Together(dst) == AcrossOut(tell, old(Together(dst)), tx, ty, area, box)
      ensures !area.Empty() && this == dst ==>
                Out(State(), socket.sent) == WithinOut(tell, old(State()), old(socket.sent), tx, ty, area)
      ensures Accounted(old(Now()), Now(), bounds, layer) && Accounted(old(dst.Now()), dst.Now(), dst.bounds, dst.layer)
      ensures this != dst && old(Synced()) ==> Synced()
      ensures old(Synced()) && old(dst.Synced()) &&
              (area.Empty() || SourcesKnown(tell, old(Contents()), tx, ty, old(dst.Contents()), area)) ==>
                (dst.Synced() <==>
                 this == dst || area.Empty() || forall x, y :: !ToldTwice(tell, old(Together(dst)), tx, ty, area, box, x, y))
      ensures forall l, x, y :: l != layer && l != dst.layer ==>
                ClientAt(socket.sent, l, x, y) == ClientAt(old(socket.sent), l, x, y)
    {
      hide Updates.Flush, LocalOp, Combined, IsTrim, AcrossOut, WithinOut, Sound, Accounted, InStep, SourcesKnown;
      hide ToldTwice, At, ClientAt;
      StateIsValid();
      dst.StateIsValid();
      ghost var p := Together(dst);
      area, tx, ty := ClipMove(sx, sy, w, h, dst, dx, dy);
      box := area;
      if area.Empty() {
        IdleKeeps(State(), socket.sent);
        IdleKeeps(dst.State(), socket.sent);
      } else if this == dst {
        WithinKeeps(tell, p.src, p.sent, tx, ty, area);
        WithinForOthers(tell, p.src, p.sent, tx, ty, area);
        MoveWithin(tell, tx, ty, area);
      } else {
        box := MoveAcross(tell, tx, ty, dst, area);
        AcrossKeeps(tell, p, tx, ty, area, box);
        forall l, x, y | l != layer && l != dst.layer
          ensures ClientAt(socket.sent, l, x, y) == ClientAt(old(socket.sent), l, x, y)
        {
          AcrossForOthers(tell, p, tx, ty, area, box, l, x, y);
        }
      }
    }

    /** guac_common_surface_transfer. Both surfaces stay in step when a surface is its
        own source, the function is repeatable, nothing of the destination waits, or
        the update joins the dirty rectangle. */
    method Transfer(sx: int, sy: int, w: int, h: int, op: TransferFn, dst: Surface, dx: int, dy: int)
      returns (area: Rect, tx: int, ty: int, box: Rect)
      requires Valid() && dst.Valid() && socket == dst.socket
      requires this != dst ==> layer != dst.layer && buffer != dst.buffer
      modifies this`dirty, this`dirtyRect, this`queue, this`realized, this`formats
      modifies dst`dirty, dst`dirtyRect, dst`queue, dst`realized, dst`formats, dst.buffer, socket
      ensures Valid() && dst.Valid()
      ensures forall x, y :: area.Has(x, y) <==> Reached(sx, sy, w, h, dst, dx, dy, x, y)
      ensures tx - area.x == sx - dx && ty - area.y == sy - dy
      ensures area.Empty() ==> Together(dst) == old(Together(dst))
      ensures Transferred(op, old(Contents()), old(dst.Contents()), dst.Contents(), area, sx - dx, sy - dy)
      ensures !area.Empty() ==> dst.Contents() == Combined(op, old(Contents()), tx, ty, old(dst.Contents()), area)
      ensures !area.Empty() && this != dst ==>
                && Meets(ByTransfer(op), old(Together(dst)), tx, ty, area, box)
                && Together(dst) == AcrossOut(ByTransfer(op), old(Together(dst)), tx, ty, area, box)
      ensures Accounted(old(Now()), Now(), bounds, layer) && Accounted(old(dst.Now()), dst.Now(), dst.bounds, dst.layer)
      ensures old(Synced()) && old(dst.Synced()) &&
              (area.Empty() || SourcesKnown(ByTransfer(op), old(Contents()), tx, ty, old(dst.Contents()), area)) ==>
                && (this != dst ==> Synced())
                && (dst.Synced() <==>
                    this == dst || area.Empty() ||
                    forall x, y :: !ToldTwice(ByTransfer(op), old(Together(dst)), tx, ty, area, box, x, y))
                && (this == dst || Repeatable(op) || old(!dst.dirty && dst.queue == []) || old(dst.ShouldCombine(box, true)) ==>
                      dst.Synced())
      ensures forall l, x, y :: l != layer && l != dst.layer ==>
                ClientAt(socket.sent, l, x, y) == ClientAt(old(socket.sent), l, x, y)
    {
      hide Updates.Flush, Combined, IsTrim, AcrossOut, WithinOut, Sound, Accounted, InStep, SourcesKnown;
      hide ToldTwice, At, ClientAt, Repeatable, Transferred, Meets;
      StateIsValid();
      dst.StateIsValid();
      ghost var p := Together(dst);
      area, tx, ty, box := Move(ByTransfer(op), sx, sy, w, h, dst, dx, dy);
      if area.Empty() {
        NothingTransferred(op, p.src.picture, p.dst.picture, area, sx - dx, sy - dy);
      } else {
        CombinedTransferred(op, p.src, p.dst, tx, ty, area);
      }
      if Repeatable(op) || (!p.dst.track.dirty && p.dst.track.queue == []) ||
         Updates.ShouldCombine(p.dst.setting, p.dst.track, box, true) {
        NotTwice(ByTransfer(op), p, tx, ty, area, box);
      }
    }

    /** guac_common_surface_copy. Both surfaces stay in step with their opaque pixels;
        what becomes of the others is said by CopyArrivesIff. */
    method Copy(sx: int, sy: int, w: int, h: int, dst: Surface, dx: int, dy: int)
      returns (area: Rect, tx: int, ty: int, box: Rect)
      requires Valid() && dst.Valid() && socket == dst.socket
      requires this != dst ==> layer != dst.layer && buffer != dst.buffer
      modifies this`dirty, this`dirtyRect, this`queue, this`realized, this`formats
      modifies dst`dirty, dst`dirtyRect, dst`queue, dst`realized, dst`formats, dst.buffer, socket
      ensures Valid() && dst.Valid()
      ensures forall x, y :: area.Has(x, y) <==> Reached(sx, sy, w, h, dst, dx, dy, x, y)
      ensures tx - area.x == sx - dx && ty - area.y == sy - dy
      ensures area.Empty() ==> Together(dst) == old(Together(dst))
      ensures !area.Empty() ==> dst.Contents() == Combined(Src, old(Contents()), tx, ty, old(dst.Contents()), area)
      ensures !area.Empty() && this != dst ==>
                && Meets(ByCopy, old(Together(dst)), tx, ty, area, box)
                && Together(dst) == AcrossOut(ByCopy, old(Together(dst)), tx, ty, area, box)
      ensures Accounted(old(Now()), Now(), bounds, layer) && Accounted(old(dst.Now()), dst.Now(), dst.bounds, dst.layer)
      ensures old(Synced()) && old(dst.Synced()) ==> Synced() && dst.Synced()
      ensures forall l, x, y :: l != layer && l != dst.layer ==>
                ClientAt(socket.sent, l, x, y) == ClientAt(old(socket.sent), l, x, y)
    {
      hide Updates.Flush, Combined, IsTrim, AcrossOut, WithinOut, Sound, Accounted, InStep, SourcesKnown;
      hide ToldTwice, At, ClientAt;
      StateIsValid();
      dst.StateIsValid();
      ghost var p := Together(dst);
      area, tx, ty, box := Move(ByCopy, sx, sy, w, h, dst, dx, dy);
      CopySourcesKnown(p.src.picture, tx, ty, p.dst.picture, area);
      NotTwice(ByCopy, p, tx, ty, area, box);
    }
  }
}
