/** Two ways in which the client comes to show something else than the surface,
    each reached by public calls from new surfaces (src/common/surface.c). */
module OutOfStep {
  import opened Rects
  import opened Bits
  import opened Operators
  import opened Pixels
  import opened Updates
  import opened Clients
  import opened Shipping
  import opened Calls
  import opened Surfaces
  import opened Runs

  const WHITE: Color := 0xFFFF_FFFF

  /** An area all of which changed is not trimmed. */
  lemma FullTrim(box: Rect, before: Picture, after: Picture, area: Rect, keepsOne: bool)
    requires IsTrim(box, before, after, area, keepsOne) && !area.Empty()
    requires forall x, y :: area.Has(x, y) ==> Differ(before, after, x, y)
    ensures box == area
  {
    hide Differ;
    assert area.Has(area.x, area.y) && area.Has(area.Right() - 1, area.Bottom() - 1);
    assert Differ(before, after, area.x, area.y) && Differ(before, after, area.Right() - 1, area.Bottom() - 1);
    assert box.Has(area.x, area.y) && box.Has(area.Right() - 1, area.Bottom() - 1);
  }

  /** A surface of one colour: filled at once, and nothing waits. */
  method Filled(conn: Connection, layer: int, w: nat, h: nat, color: Color, formats: seq<Encoding>) returns (s: Surface)
    requires layer >= 0 && w > 0 && h > 0 && FullAlpha(color) && color != 0
    modifies conn
    ensures fresh(s) && fresh(s.buffer) && s.socket == conn && s.layer == layer && s.width == w && s.height == h
    ensures s.Valid() && s.Synced() && s.worth == WorthCombining && !s.clipped
    ensures s.realized && !s.dirty && s.queue == [] && s.formats == formats
    ensures forall x, y :: s.bounds.Has(x, y) ==> s.buffer[y, x] == color
    ensures conn.sent == old(conn.sent) + [CFill(layer, s.bounds, color)]
  {
    hide ClientAt, IsTrim, Updates.Flush, FullAlpha, Accounted, InStep, OthersAsBefore;
    s := new Surface(conn, layer, w, h, WorthCombining, formats);
    ghost var before := s.Contents();
    var box := s.Set(0, 0, w, h, color);
    assert Meet(Rect(0, 0, w, h), s.bounds) == s.bounds;
    FullTrim(box, before, s.Contents(), s.bounds, true);
    FlushIdle(s.Rules(), s.Contents(), Track(true, false, Rect(0, 0, 0, 0), [], formats));
    NoImages(layer, s.Contents());
    assert conn.sent == old(conn.sent) + [] + [CFill(layer, s.bounds, color)];
  }

  lemma SameRect(a: Rect, b: Rect)
    requires !b.Empty() && forall x, y :: a.Has(x, y) <==> b.Has(x, y)
    ensures a == b
  {
    assert b.Has(b.x, b.y) && b.Has(b.Right() - 1, b.Bottom() - 1);
    assert !b.Has(b.x - 1, b.y) && !b.Has(b.x, b.y - 1) && !b.Has(b.Right(), b.y) && !b.Has(b.x, b.Bottom());
    assert !a.Has(b.x - 1, b.y) && !a.Has(b.x, b.y - 1) && !a.Has(b.Right(), b.y) && !a.Has(b.x, b.Bottom());
  }

  lemma MeetsTrim(tell: Tell, p: Pair, sx: int, sy: int, area: Rect, box: Rect)
    requires Meets(tell, p, sx, sy, area, box)
    ensures IsTrim(box, p.dst.picture, Combined(LocalOp(tell), p.src.picture, sx, sy, p.dst.picture, area), area, true)
    ensures Calls.Valid(p.src) && Calls.Valid(p.dst) && Calls.Fits(p.src, p.dst, sx, sy, area)
  {
  }

  // --------------------------------------------------------------- a transfer

  /** The top row of a surface, and one of its columns. */
  function Row(s: Rect): Rect { Rect(s.x, s.y, s.width, 1) }

  function Column(s: Rect, cx: int): Rect { Rect(cx, s.y, 1, s.height) }

  /** A colour that XOR always changes with. */
  ghost predicate Flips(ink: Color) {
    FullAlpha(ink) && forall d :: TransferInt(Xor, ink, d) != d
  }

  lemma FlipsWhite(d: Color)
    ensures TransferInt(Xor, WHITE, d) != d
  {
  }

  lemma WhiteFlips()
    ensures Flips(WHITE) && WHITE != OPAQUE_BLACK && OPAQUE_BLACK != 0 && WHITE != 0
    ensures FullAlpha(OPAQUE_BLACK)
  {
    forall d ensures TransferInt(Xor, WHITE, d) != d {
      FlipsWhite(d);
    }
  }

  lemma OpaqueInk(ink: Color)
    requires Flips(ink)
    ensures FullAlpha(ink)
  {
  }

  /** A surface that fills its bounds, is not clipped and has nothing waiting. */
  ghost predicate Plain(s: Surface)
    reads s
  {
    s.Valid() && s.width > 1 && s.height > 1 && !s.clipped && s.realized && !s.dirty && s.queue == []
  }

  lemma RowDiffers(before: Picture, after: Picture, row: Rect, ground: Color, ink: Color)
    requires ink != ground
    requires forall x, y :: row.Has(x, y) ==>
               (x, y) in before && (x, y) in after && before[(x, y)] == ground && after[(x, y)] == ink
    ensures forall x, y :: row.Has(x, y) ==> Differ(before, after, x, y)
  {
  }

  lemma RowColor(image: Image, ink: Color, x: int, y: int, c: Color)
    requires FullAlpha(ink) && image.at(x - 0, y - 0) == ink
    ensures DrawnColor(true, image, 0, 0, x, y, c) == ink
  {
    hide Opaqued, FullAlpha;
    OpaquedIsOpaque(ink);
  }

  method DrawRow(s: Surface, ground: Color, ink: Color) returns (box: Rect)
    requires Plain(s) && FullAlpha(ink) && ink != ground
    requires forall x, y :: s.bounds.Has(x, y) ==> s.buffer[y, x] == ground
    modifies s`dirty, s`dirtyRect, s`queue, s`realized, s`formats, s.buffer, s.socket
    ensures s.Valid() && box == Row(s.bounds) && (old(s.Synced()) ==> s.Synced())
    ensures Out(s.State(), s.socket.sent) == PostponeOut(old(s.State()), old(s.socket.sent), s.Contents(), box)
    ensures forall x, y :: s.bounds.Has(x, y) && y == 0 ==> s.buffer[y, x] == ink
  {
    hide ClientAt, IsTrim, FullAlpha, Accounted, InStep, OthersAsBefore, DrawnColor, PostponeOut, Sound, Calls.Valid, At, Differ;
    var image := Image(s.width, 1, (x, y) => ink);
    ghost var before, row := s.Contents(), Row(s.bounds);
    box := s.Draw(0, 0, image, true);
    assert Meet(Rect(0, 0, image.width, image.height), s.Clip()) == row;
    forall x, y | row.Has(x, y) ensures s.bounds.Has(x, y) && s.buffer[y, x] == ink {
      RowColor(image, ink, x, y, ground);
    }
    RowDiffers(before, s.Contents(), row, ground, ink);
    FullTrim(box, before, s.Contents(), row, false);
  }

  /** An update to a surface with nothing dirty becomes the dirty rectangle. */
  lemma FirstPostpone(side: Side, sent: seq<Instr>, picture: Picture, box: Rect)
    requires Calls.Valid(side) && side.track.realized && !side.track.dirty && !box.Empty()
    ensures PostponeOut(side, sent, picture, box) ==
            Out(side.(track := side.track.(dirty := true, dirtyRect := box), picture := picture), sent)
  {
    hide Updates.Flush;
    NoImages(side.layer, picture);
    assert sent + [] == sent;
  }

  /** Draw a row across the top of a surface of another colour; it waits to be sent. */
  method WaitingRow(s: Surface, ground: Color, ink: Color)
    requires Plain(s) && s.Synced() && FullAlpha(ink) && ink != ground
    requires forall x, y :: s.bounds.Has(x, y) ==> s.buffer[y, x] == ground
    modifies s`dirty, s`dirtyRect, s`queue, s`realized, s`formats, s.buffer, s.socket
    ensures s.Valid() && s.Synced() && s.realized && s.dirty && s.dirtyRect == Row(s.bounds)
    ensures s.socket.sent == old(s.socket.sent)
    ensures forall x, y :: s.bounds.Has(x, y) && y == 0 ==> s.buffer[y, x] == ink
  {
    hide ClientAt, IsTrim, FullAlpha, Accounted, InStep, OthersAsBefore, DrawnColor, PostponeOut, Sound;
    ghost var before := s.State();
    s.StateIsValid();
    var box := DrawRow(s, ground, ink);
    FirstPostpone(before, old(s.socket.sent), s.Contents(), Row(s.bounds));
  }

  /** A surface of one colour, and another of the same size whose top row, in that
      colour as well, waits to be sent. */
  ghost predicate RowWaits(p: Pair, ink: Color, cx: int) {
    && Calls.Valid(p.src) && Calls.Valid(p.dst) && p.src.setting.bounds == p.dst.setting.bounds
    && p.dst.track.realized && p.dst.track.dirty && p.dst.track.dirtyRect == Row(p.dst.setting.bounds)
    && !p.dst.setting.worth(Row(p.dst.setting.bounds), Column(p.dst.setting.bounds, cx), true)
    && p.dst.setting.bounds.Has(cx, p.dst.setting.bounds.y)
    && Flips(ink) && (forall q :: q in p.src.picture ==> p.src.picture[q] == ink)
    && p.dst.picture[(cx, p.dst.setting.bounds.y)] == ink
  }

  /** The pixel where row and column cross is sent by the flush with the XOR applied,
      and the client is then told to apply it again. */
  lemma CrossingIsToldTwice(p: Pair, ink: Color, cx: int)
    requires RowWaits(p, ink, cx)
    ensures var b := p.dst.setting.bounds;
            ToldTwice(ByTransfer(Xor), p, cx, b.y, Column(b, cx), Column(b, cx), cx, b.y)
  {
    hide Updates.Flush, Covered, TransferInt, FullAlpha, Combined;
    var b := p.dst.setting.bounds;
    AlphaOf(Xor, ink, ink);
    FlushCovers(p.dst.setting, Combined(Xor, p.src.picture, cx, b.y, p.dst.picture, Column(b, cx)), p.dst.track, cx, b.y);
    assert Row(b).Has(cx, b.y) && Column(b, cx).Has(cx, b.y);
    assert (cx, b.y) in p.src.picture;
  }

  /** The column transferred with XOR changes all over. */
  lemma ColumnChanges(p: Pair, ink: Color, cx: int, box: Rect)
    requires RowWaits(p, ink, cx)
    requires Meets(ByTransfer(Xor), p, cx, p.dst.setting.bounds.y, Column(p.dst.setting.bounds, cx), box)
    ensures box == Column(p.dst.setting.bounds, cx)
  {
    hide TransferInt, FullAlpha, Combined, IsTrim, Sound, Calls.Valid, Calls.Fits;
    var b := p.dst.setting.bounds;
    var column := Column(b, cx);
    var result := Combined(Xor, p.src.picture, cx, b.y, p.dst.picture, column);
    MeetsTrim(ByTransfer(Xor), p, cx, b.y, column, box);
    forall x, y | column.Has(x, y) ensures Differ(p.dst.picture, result, x, y) {
      AreaPixel(Xor, p.src, p.dst, cx, b.y, column, x, y);
    }
    FullTrim(box, p.dst.picture, result, column, true);
  }

  lemma KnownFromInk(p: Pair, ink: Color, cx: int, sx: int, sy: int, area: Rect)
    requires RowWaits(p, ink, cx)
    ensures SourcesKnown(ByTransfer(Xor), p.src.picture, sx, sy, p.dst.picture, area)
  {
    hide TransferInt, FullAlpha, Calls.Valid;
    OpaqueInk(ink);
  }

  /** Two surfaces of one colour each. */
  method TwoFilled(w: nat, h: nat, first: Color, second: Color) returns (a: Surface, b: Surface)
    requires w > 1 && h > 1 && FullAlpha(first) && first != 0 && FullAlpha(second) && second != 0
    ensures fresh(a) && fresh(b) && fresh(a.socket) && fresh(a.buffer) && fresh(b.buffer)
    ensures Paired(a, b) && Plain(b) && a.Synced() && b.Synced() && a.bounds == b.bounds == Rect(0, 0, w, h)
    ensures b.worth == WorthCombining
    ensures forall x, y :: a.bounds.Has(x, y) ==> a.buffer[y, x] == first && b.buffer[y, x] == second
  {
    hide ClientAt, FullAlpha, Accounted, InStep, Sound, WorthCombining;
    var conn := new Connection();
    a := Filled(conn, 1, w, h, first, []);
    ghost var m := a.Now();
    b := Filled(conn, 2, w, h, second, []);
    forall x, y ensures ClientAt(conn.sent, 1, x, y) == ClientAt(m.sent, 1, x, y) {
      ReplayOne(m.sent, CFill(2, b.bounds, second), 1, x, y);
    }
    Uninvolved(a, m);
  }

  /** Two surfaces, the second with a row waiting. */
  method SurfacesWithRow(w: nat, h: nat, ground: Color, ink: Color) returns (src: Surface, dst: Surface)
    requires w > 1 && h > 1 && FullAlpha(ground) && ground != 0 && FullAlpha(ink) && ink != 0 && ink != ground
    ensures fresh(src) && fresh(dst) && fresh(src.socket) && fresh(src.buffer) && fresh(dst.buffer)
    ensures Paired(src, dst) && src.Synced() && dst.Synced() && src.bounds == dst.bounds == Rect(0, 0, w, h) && !dst.clipped
    ensures dst.worth == WorthCombining && dst.realized && dst.dirty && dst.dirtyRect == Row(dst.bounds)
    ensures forall x, y :: src.bounds.Has(x, y) ==> src.buffer[y, x] == ink
    ensures forall x, y :: dst.bounds.Has(x, y) && y == 0 ==> dst.buffer[y, x] == ink
  {
    hide ClientAt, FullAlpha, Accounted, InStep, Sound, WorthCombining, At;
    src, dst := TwoFilled(w, h, ink, ground);
    WaitingRow(dst, ground, ink);
  }

  method TransferColumn(src: Surface, dst: Surface, ink: Color, cx: int)
    requires Paired(src, dst) && src.Synced() && dst.Synced() && !dst.clipped
    requires dst.bounds.x == dst.bounds.y == 0 && RowWaits(src.Together(dst), ink, cx)
    modifies src, dst, dst.buffer, src.socket
    ensures src.Valid() && dst.Valid() && !dst.Synced()
  {
    hide ClientAt, IsTrim, FullAlpha, Accounted, InStep, ToldTwice, AcrossOut, Combined, Meets, SourcesKnown;
    hide Repeatable, Sound, Flips, At, TransferInt, Calls.Valid, Transferred;
    ghost var p := src.Together(dst);
    ghost var column := Column(dst.bounds, cx);
    src.StateIsValid();
    dst.StateIsValid();
    KnownFromInk(p, ink, cx, cx, 0, column);
    CrossingIsToldTwice(p, ink, cx);
    var area, tx, ty, box := src.Transfer(cx, 0, 1, dst.height, Xor, dst, cx, 0);
    SameRect(area, column);
    ColumnChanges(p, ink, cx, box);
  }

  /** The program's estimate keeps the row and the column of such a surface apart. */
  lemma RowAndColumnApart(b: Rect, cx: int)
    requires b.width == 100 && b.height == 1000 && b.x + 50 == cx
    ensures !WorthCombining(Row(b), Column(b, cx), true)
  {
  }

  lemma RowDoesWait(src: Surface, dst: Surface, ink: Color, cx: int)
    requires Paired(src, dst) && src.bounds == dst.bounds && Flips(ink) && dst.bounds.y == 0 && dst.bounds.Has(cx, 0)
    requires dst.worth == WorthCombining && !WorthCombining(Row(dst.bounds), Column(dst.bounds, cx), true)
    requires dst.realized && dst.dirty && dst.dirtyRect == Row(dst.bounds)
    requires forall x, y :: src.bounds.Has(x, y) ==> src.buffer[y, x] == ink
    requires forall x, y :: dst.bounds.Has(x, y) && y == 0 ==> dst.buffer[y, x] == ink
    ensures RowWaits(src.Together(dst), ink, cx)
  {
    hide Flips, Sound, WorthCombining;
    src.StateIsValid();
    dst.StateIsValid();
  }

  /** A transfer between surfaces can put the client out of step. A row of the
      destination waits to be sent and a column crossing it is transferred with XOR;
      the two are too far from a common rectangle to combine, so the crossing pixel
      is sent with the XOR already applied and the client then applies it again. */
  method XorAcrossWaitingRow() returns (src: Surface, dst: Surface)
    ensures src.Valid() && dst.Valid() && !dst.Synced()
  {
    hide ClientAt, FullAlpha, Accounted, InStep, Sound, Flips, At, RowWaits, WorthCombining;
    WhiteFlips();
    OpaqueInk(WHITE);
    src, dst := SurfacesWithRow(100, 1000, OPAQUE_BLACK, WHITE);
    RowAndColumnApart(dst.bounds, 50);
    RowDoesWait(src, dst, WHITE, 50);
    TransferColumn(src, dst, WHITE, 50);
  }

  // ------------------------------------------------------------------- a copy

  lemma NothingShows(layer: int, x: int, y: int)
    ensures ClientAt([], layer, x, y) == 0
  {
  }

  /** A transparent surface, and another of one colour that the client shows. */
  ghost predicate NothingAnd(p: Pair, area: Rect, color: Color) {
    && Calls.Valid(p.src) && Calls.Valid(p.dst) && p.src.layer == 1 && p.dst.layer == 2
    && area.Has(0, 0) && area.x == area.y == 0 && area.Within(p.src.setting.bounds) && area.Within(p.dst.setting.bounds)
    && p.dst.track.realized && !p.dst.track.dirty && p.dst.track.queue == []
    && !p.src.track.dirty && p.src.track.queue == []
    && (forall q :: q in p.src.picture ==> p.src.picture[q] == 0)
    && (forall q :: q in p.dst.picture ==> p.dst.picture[q] == color)
    && p.sent == [] + [CFill(2, p.dst.setting.bounds, color)] && color != 0 && FullAlpha(color)
  }

  lemma CopiedPixel(p: Pair, area: Rect, box: Rect, color: Color, x: int, y: int)
    requires Meets(ByCopy, p, 0, 0, area, box) && NothingAnd(p, area, color) && area.Has(x, y)
    ensures var result := Combined(Src, p.src.picture, 0, 0, p.dst.picture, area);
            Differ(p.dst.picture, result, x, y) && (x, y) in result && result[(x, y)] == 0
  {
    hide IsTrim, Combined, TransferInt, Sound;
    AreaPixel(Src, p.src, p.dst, 0, 0, area, x, y);
    SrcCopies(0, color);
  }

  lemma WholeAreaChanges(p: Pair, area: Rect, box: Rect, color: Color)
    requires Meets(ByCopy, p, 0, 0, area, box) && NothingAnd(p, area, color)
    ensures box == area
  {
    hide IsTrim, Combined, Differ, Calls.Valid, Calls.Fits;
    var result := Combined(Src, p.src.picture, 0, 0, p.dst.picture, area);
    MeetsTrim(ByCopy, p, 0, 0, area, box);
    forall x, y | area.Has(x, y) ensures Differ(p.dst.picture, result, x, y) {
      CopiedPixel(p, area, box, color, x, y);
    }
    FullTrim(box, p.dst.picture, result, area, true);
  }

  lemma FilledPixels(p: Pair, area: Rect, color: Color)
    requires NothingAnd(p, area, color)
    ensures ClientAt(p.sent, 1, 0, 0) == 0 && ClientAt(p.sent, 2, 0, 0) == color && Over(0, color) == color
  {
    hide ClientAt, Sound;
    NothingShows(1, 0, 0);
    NothingShows(2, 0, 0);
    ReplayOne([], CFill(2, p.dst.setting.bounds, color), 1, 0, 0);
    ReplayOne([], CFill(2, p.dst.setting.bounds, color), 2, 0, 0);
    TransparentIsNotOpaque();
  }

  lemma CopyIsTold(p: Pair, area: Rect, color: Color)
    requires Meets(ByCopy, p, 0, 0, area, area) && NothingAnd(p, area, color)
    ensures ClientAt(Crossing(ByCopy, p, 0, 0, area, area).After(), 2, 0, 0) == color
  {
    hide ClientAt, IsTrim, Updates.Flush, FullAlpha, Images, TellInstr, Combined, Sound, Over;
    var a := Crossing(ByCopy, p, 0, 0, area, area);
    FlushIdle(p.dst.setting, a.result, p.dst.track);
    FlushIdle(p.src.setting, p.src.picture, p.src.track);
    CrossingIsValid(ByCopy, p, 0, 0, area, area);
    AcrossPixel(a, 0, 0);
    FilledPixels(p, area, color);
  }

  /** What the copy of a transparent surface onto an opaque one comes to. */
  lemma NothingCopied(p: Pair, area: Rect, box: Rect, color: Color)
    requires Meets(ByCopy, p, 0, 0, area, box) && NothingAnd(p, area, color)
    ensures var q := AcrossOut(ByCopy, p, 0, 0, area, box);
            && (0, 0) in q.dst.picture && q.dst.picture[(0, 0)] == 0 && !Waits(q.dst.track, 0, 0)
            && ClientAt(q.sent, 2, 0, 0) == color
  {
    hide ClientAt, IsTrim, Updates.Flush, FullAlpha, Images, TellInstr, Combined, Sound, Waits, Differ;
    var result := Combined(Src, p.src.picture, 0, 0, p.dst.picture, area);
    WholeAreaChanges(p, area, box, color);
    CopiedPixel(p, area, box, color, 0, 0);
    FlushIdle(p.dst.setting, result, p.dst.track);
    NothingWaits(p.dst.track.(realized := true));
    CopyIsTold(p, area, color);
  }

  lemma CornerIsReady(src: Surface, dst: Surface, color: Color, size: nat)
    requires Paired(src, dst) && src.layer == 1 && dst.layer == 2 && 0 < size && color != 0 && FullAlpha(color)
    requires Rect(0, 0, size, size).Within(src.bounds) && Rect(0, 0, size, size).Within(dst.bounds)
    requires dst.realized && !dst.dirty && dst.queue == [] && !src.dirty && src.queue == []
    requires (forall q :: q in src.Contents() ==> src.Contents()[q] == 0)
    requires forall x, y :: dst.bounds.Has(x, y) ==> dst.buffer[y, x] == color
    requires dst.socket.sent == [] + [CFill(2, dst.bounds, color)]
    ensures NothingAnd(src.Together(dst), Rect(0, 0, size, size), color)
  {
    hide FullAlpha, Sound;
    src.StateIsValid();
    dst.StateIsValid();
  }

  method CopyCorner(src: Surface, dst: Surface, color: Color, size: nat)
    requires Paired(src, dst) && !dst.clipped && 0 < size && NothingAnd(src.Together(dst), Rect(0, 0, size, size), color)
    modifies src, dst, dst.buffer, src.socket
    ensures src.Valid() && dst.Valid() && dst.bounds.Has(0, 0) && dst.buffer[0, 0] == 0
    ensures !Waits(dst.Tracked(), 0, 0) && ClientAt(dst.socket.sent, dst.layer, 0, 0) == color
  {
    hide ClientAt, FullAlpha, Accounted, InStep, AcrossOut, Combined, Meets, Sound, Waits, At, Calls.Valid;
    ghost var p, corner := src.Together(dst), Rect(0, 0, size, size);
    var area, tx, ty, box := src.Copy(0, 0, size, size, dst, 0, 0);
    SameRect(area, corner);
    NothingCopied(p, corner, box, color);
    assert dst.Contents()[(0, 0)] == dst.buffer[0, 0];
  }

  /** The client is told of a copy with the operator OVER, so copying a transparent
      pixel leaves what was there: locally the pixel is transparent, the client
      still shows the old colour, and nothing waits to be sent. */
  method CopyOfNothing(w: nat, h: nat, size: nat, color: Color) returns (src: Surface, dst: Surface)
    requires 0 < size < w && size < h && FullAlpha(color) && color != 0
    ensures src.Valid() && dst.Valid() && dst.bounds.Has(0, 0) && dst.buffer[0, 0] == 0
    ensures !Waits(dst.Tracked(), 0, 0) && ClientAt(dst.socket.sent, dst.layer, 0, 0) == color
  {
    hide ClientAt, FullAlpha, Accounted, InStep, Sound, Waits, At, NothingAnd, WorthCombining;
    var conn := new Connection();
    src := new Surface(conn, 1, w, h, WorthCombining, []);
    dst := Filled(conn, 2, w, h, color, []);
    CornerIsReady(src, dst, color, size);
    CopyCorner(src, dst, color, size);
  }

  // ------------------------------------------------------------------ an image

  lemma NotAllOpaque(picture: Picture, rect: Rect)
    requires rect.Has(0, 0) && (0, 0) in picture && picture[(0, 0)] == 0
    ensures !OpaqueIn(picture, rect)
  {
    TransparentIsNotOpaque();
  }

  /** A WebP image of a transparent surface over one colour. */
  lemma WebpKeepsColor(side: Side, color: Color)
    requires Calls.Valid(side) && side.track.dirty && side.track.queue == [] && side.track.formats == [Webp]
    requires side.track.dirtyRect == side.setting.bounds && side.setting.bounds.Has(0, 0)
    requires (0, 0) in side.picture && side.picture[(0, 0)] == 0 && color != 0
    ensures PixelAfter(Updates.Flush(side.setting, side.picture, side.track).sends, 0, 0, 0, color) == color
  {
    hide Updates.Flush, OpaqueIn, FullAlpha, Grown;
    OneImage(side.setting, side.picture, side.track);
    SendingContains(side.setting, side.picture, side.track);
    NotAllOpaque(side.picture, side.setting.bounds);
    TransparentIsNotOpaque();
    var send := SendingOf(side.setting, side.picture, side.track);
    assert [send][1..] == [];
  }

  lemma FilledShows(layer: int, bounds: Rect, color: Color)
    requires bounds.Has(0, 0) && FullAlpha(color)
    ensures ClientAt([] + [CFill(layer, bounds, color)], layer, 0, 0) == color
  {
    hide ClientAt, FullAlpha;
    NothingShows(layer, 0, 0);
    ReplayOne([], CFill(layer, bounds, color), layer, 0, 0);
  }

  /** Make a surface of one colour transparent; all of it waits to be sent. */
  method Cleared(s: Surface, color: Color)
    requires Plain(s) && color != 0 && s.bounds.Has(0, 0)
    requires forall x, y :: s.bounds.Has(x, y) ==> s.buffer[y, x] == color
    modifies s`dirty, s`dirtyRect, s`queue, s`realized, s`formats, s.buffer, s.socket
    ensures s.Valid() && s.dirty && s.dirtyRect == s.bounds && s.queue == [] && s.formats == old(s.formats)
    ensures s.socket.sent == old(s.socket.sent) && s.buffer[0, 0] == 0
  {
    hide ClientAt, IsTrim, FullAlpha, Accounted, InStep, OthersAsBefore, Sound, PostponeOut;
    ghost var before := s.State();
    s.StateIsValid();
    var box := s.Set(0, 0, s.width, s.height, 0);
    assert Meet(Rect(0, 0, s.width, s.height), s.bounds) == s.bounds;
    FullTrim(box, before.picture, s.Contents(), s.bounds, true);
    TransparentIsNotOpaque();
    FirstPostpone(before, old(s.socket.sent), s.Contents(), s.bounds);
  }

  /** A WebP image is drawn with OVER and its area not cleared first: a surface of one
      colour is made transparent and flushed, and the client keeps the colour. */
  method TransparentUnderWebp(w: nat, h: nat, color: Color) returns (s: Surface)
    requires w > 1 && h > 1 && FullAlpha(color) && color != 0
    ensures s.Valid() && s.bounds.Has(0, 0) && s.buffer[0, 0] == 0 && !s.dirty && s.queue == []
    ensures ClientAt(s.socket.sent, s.layer, 0, 0) == color
  {
    hide ClientAt, FullAlpha, Accounted, InStep, Sound, PixelAfter, Updates.Flush, WorthCombining;
    var conn := new Connection();
    s := Filled(conn, 1, w, h, color, [Webp]);
    FilledShows(1, s.bounds, color);
    Cleared(s, color);
    s.StateIsValid();
    ghost var side := s.State();
    WebpKeepsColor(side, color);
    var _ := s.Flush();
    assert side.picture[(0, 0)] == s.buffer[0, 0];
  }
}
