/** What the client makes of the instructions a surface sends, pixel by pixel, and
    how that compares with the surface itself (src/common/surface.c). */
module Clients {
  import opened Rects
  import opened Bits
  import opened Operators
  import opened Pixels
  import opened Updates

  /** Instructions that change the contents of a client layer: clear an area (a
      rectangle filled with the operator ROUT), draw an image, fill an area, copy
      from a layer, all three with the operator OVER, and transfer. */
  datatype Instr =
    | Clear(layer: int, rect: Rect)
    | Img(layer: int, rect: Rect, picture: Picture, rgb: bool)
    | CFill(layer: int, rect: Rect, color: Color)
    | Copy(src: int, sx: int, sy: int, layer: int, rect: Rect)
    | Xfer(src: int, sx: int, sy: int, op: TransferFn, layer: int, rect: Rect)

  /** What the client shows after applying the instructions in order. An image
      without alpha channel replaces what it covers with opaque pixels. */
  ghost function ClientAt(sent: seq<Instr>, layer: int, x: int, y: int): Color {
    if sent == [] then 0
    else
      var earlier := sent[..|sent| - 1];
      var last := sent[|sent| - 1];
      var before := ClientAt(earlier, layer, x, y);
      if last.layer != layer || !last.rect.Has(x, y) then before
      else
        match last
        case Clear(_, _) => 0
        case Img(_, _, picture, rgb) =>
          if (x, y) !in picture then before
          else if rgb then Opaqued(picture[(x, y)])
          else Over(picture[(x, y)], before)
        case CFill(_, _, color) => Over(color, before)
        case Copy(src, sx, sy, _, rect) => Over(ClientAt(earlier, src, x - rect.x + sx, y - rect.y + sy), before)
        case Xfer(src, sx, sy, op, _, rect) =>
          TransferInt(op, ClientAt(earlier, src, x - rect.x + sx, y - rect.y + sy), before)
  }

  /** Appending one instruction. */
  lemma ReplayOne(sent: seq<Instr>, instr: Instr, l: int, x: int, y: int)
    ensures var before, after := ClientAt(sent, l, x, y), ClientAt(sent + [instr], l, x, y);
            if instr.layer != l || !instr.rect.Has(x, y) then after == before
            else match instr
              case Clear(_, _) => after == 0
              case Img(_, _, picture, rgb) =>
                after == if (x, y) !in picture then before
                         else if rgb then Opaqued(picture[(x, y)])
                         else Over(picture[(x, y)], before)
              case CFill(_, _, color) => after == Over(color, before)
              case Copy(src, sx, sy, _, rect) =>
                after == Over(ClientAt(sent, src, x - rect.x + sx, y - rect.y + sy), before)
              case Xfer(src, sx, sy, op, _, rect) =>
                after == TransferInt(op, ClientAt(sent, src, x - rect.x + sx, y - rect.y + sy), before)
  {
    hide Over, Opaqued, TransferInt;
    assert (sent + [instr])[..|sent|] == sent;
  }

  /** Locally a copy replaces the destination, but the client is told to copy with the
      operator OVER. Where it had the source pixel right, it gets the copy right
      exactly if that is opaque, or nothing of what it showed shines through. */
  lemma CopyArrivesIff(sent: seq<Instr>, src: int, sx: int, sy: int, dst: int, rect: Rect, x: int, y: int, c: Color)
    requires rect.Has(x, y) && ClientAt(sent, src, x - rect.x + sx, y - rect.y + sy) == c
    ensures var before := ClientAt(sent, dst, x, y);
            ClientAt(sent + [Copy(src, sx, sy, dst, rect)], dst, x, y) == c <==>
            FullAlpha(c) || before == 0 || (c != 0 && Faded(before, Through(c)) == 0)
  {
    hide ClientAt, Over, FullAlpha, Faded, Through, TransferInt, Opaqued;
    ReplayOne(sent, Copy(src, sx, sy, dst, rect), dst, x, y);
    OverGivesSource(c, ClientAt(sent, dst, x, y));
  }

  // -------------------------------------------------------------------- images

  /** The instructions one image takes. */
  ghost function ImageInstrs(layer: int, send: Sending, picture: Picture): seq<Instr> {
    (if send.clear then [Clear(layer, send.rect)] else []) + [Img(layer, send.rect, picture, send.rgb)]
  }

  /** The instructions that send areas of one picture. */
  ghost function Images(layer: int, sends: seq<Sending>, picture: Picture): seq<Instr> {
    if sends == [] then [] else ImageInstrs(layer, sends[0], picture) + Images(layer, sends[1..], picture)
  }

  /** What one image makes of a pixel. */
  function Shown(send: Sending, c: Color, before: Color): Color {
    if send.rgb then Opaqued(c) else Over(c, if send.clear then 0 else before)
  }

  /** What a series of images makes of a pixel of the given colour. */
  function PixelAfter(sends: seq<Sending>, x: int, y: int, c: Color, before: Color): Color {
    if sends == [] then before
    else PixelAfter(sends[1..], x, y, c, if sends[0].rect.Has(x, y) then Shown(sends[0], c, before) else before)
  }

  lemma NoImages(layer: int, picture: Picture)
    ensures Images(layer, [], picture) == []
  {
  }

  lemma ImagesCons(layer: int, sends: seq<Sending>, rest: seq<Sending>, picture: Picture)
    requires sends != [] && sends[1..] == rest
    ensures Images(layer, sends, picture) == ImageInstrs(layer, sends[0], picture) + Images(layer, rest, picture)
  {
  }

  lemma {:induction false} ImagesJoin(layer: int, a: seq<Sending>, b: seq<Sending>, picture: Picture)
    ensures Images(layer, a + b, picture) == Images(layer, a, picture) + Images(layer, b, picture)
  {
    hide Images, ImageInstrs;
    if a == [] {
      NoImages(layer, picture);
      assert a + b == b;
    } else {
      ImagesJoin(layer, a[1..], b, picture);
      ImagesCons(layer, a, a[1..], picture);
      ImagesCons(layer, a + b, a[1..] + b, picture);
    }
  }

  lemma {:induction false} PixelAfterAppend(sends: seq<Sending>, send: Sending, x: int, y: int, c: Color, before: Color)
    ensures var mid := PixelAfter(sends, x, y, c, before);
            PixelAfter(sends + [send], x, y, c, before) == if send.rect.Has(x, y) then Shown(send, c, mid) else mid
  {
    hide Shown;
    if sends != [] {
      var first := if sends[0].rect.Has(x, y) then Shown(sends[0], c, before) else before;
      PixelAfterAppend(sends[1..], send, x, y, c, first);
      assert (sends + [send])[1..] == sends[1..] + [send];
    } else {
      assert (sends + [send])[1..] == [];
    }
  }

  lemma ReplayImage(sent: seq<Instr>, layer: int, send: Sending, picture: Picture, l: int, x: int, y: int)
    ensures var before := ClientAt(sent, l, x, y);
            ClientAt(sent + ImageInstrs(layer, send, picture), l, x, y) ==
            if l == layer && (x, y) in picture && send.rect.Has(x, y) then Shown(send, picture[(x, y)], before)
            else if l == layer && send.rect.Has(x, y) && send.clear then 0
            else before
  {
    hide ClientAt, Over, Opaqued, TransferInt;
    var img := Img(layer, send.rect, picture, send.rgb);
    if send.clear {
      var clear := Clear(layer, send.rect);
      ReplayOne(sent, clear, l, x, y);
      ReplayOne(sent + [clear], img, l, x, y);
      assert sent + ImageInstrs(layer, send, picture) == sent + [clear] + [img];
    } else {
      ReplayOne(sent, img, l, x, y);
      assert ImageInstrs(layer, send, picture) == [img];
    }
  }

  /** Replaying a series of images, on the pixels of the picture. */
  lemma {:induction false} ReplayImages(sent: seq<Instr>, layer: int, sends: seq<Sending>, picture: Picture,
                                        l: int, x: int, y: int)
    requires l == layer ==> (x, y) in picture
    ensures var before := ClientAt(sent, l, x, y);
            ClientAt(sent + Images(layer, sends, picture), l, x, y) ==
            if l == layer then PixelAfter(sends, x, y, picture[(x, y)], before) else before
    decreases |sends|
  {
    hide ClientAt, Shown, ImageInstrs;
    if sends == [] {
      assert sent + Images(layer, sends, picture) == sent;
    } else {
      var first := ImageInstrs(layer, sends[0], picture);
      ReplayImage(sent, layer, sends[0], picture, l, x, y);
      ReplayImages(sent + first, layer, sends[1..], picture, l, x, y);
      assert sent + Images(layer, sends, picture) == (sent + first) + Images(layer, sends[1..], picture);
    }
  }

  /** The last instruction that covers the pixel is an image with an alpha channel. */
  ghost predicate DrawnWithAlpha(sent: seq<Instr>, layer: int, x: int, y: int) {
    sent != [] &&
    var last := sent[|sent| - 1];
    if last.layer == layer && last.rect.Has(x, y) then last.Img? && !last.rgb
    else DrawnWithAlpha(sent[..|sent| - 1], layer, x, y)
  }

  lemma DrawnByImage(sent: seq<Instr>, layer: int, send: Sending, picture: Picture, x: int, y: int)
    ensures DrawnWithAlpha(sent + ImageInstrs(layer, send, picture), layer, x, y) <==>
            if send.rect.Has(x, y) then !send.rgb else DrawnWithAlpha(sent, layer, x, y)
  {
    var img := Img(layer, send.rect, picture, send.rgb);
    if send.clear {
      var cleared := sent + [Clear(layer, send.rect)];
      assert sent + ImageInstrs(layer, send, picture) == cleared + [img];
      assert (cleared + [img])[..|cleared|] == cleared && cleared[..|sent|] == sent;
    } else {
      assert sent + ImageInstrs(layer, send, picture) == sent + [img];
      assert (sent + [img])[..|sent|] == sent;
    }
  }

  lemma {:induction false} CoveredSnoc(sends: seq<Sending>, send: Sending, x: int, y: int)
    ensures Covered(sends + [send], x, y) <==> Covered(sends, x, y) || send.rect.Has(x, y)
  {
    var all := sends + [send];
    assert all[|sends|] == send;
    if Covered(sends, x, y) {
      var k :| 0 <= k < |sends| && sends[k].rect.Has(x, y);
      assert all[k] == sends[k];
    }
    if Covered(all, x, y) {
      var k :| 0 <= k < |all| && all[k].rect.Has(x, y);
      assert k < |sends| ==> sends[k] == all[k];
    }
  }

  lemma ImagesSnoc(sent: seq<Instr>, layer: int, sends: seq<Sending>, send: Sending, picture: Picture)
    ensures sent + Images(layer, sends + [send], picture) ==
            (sent + Images(layer, sends, picture)) + ImageInstrs(layer, send, picture)
  {
    hide ImageInstrs;
    ImagesJoin(layer, sends, [send], picture);
    NoImages(layer, picture);
    ImagesCons(layer, [send], [], picture);
  }

  lemma OverNothing(c: Color)
    ensures Over(c, 0) == c
  {
  }

  /** One such image shows the pixel as it is, or without its alpha channel. */
  lemma FaithfulShows(send: Sending, picture: Picture, pngOnly: bool, x: int, y: int, before: Color)
    requires Faithful(send, picture, pngOnly) && send.rect.Has(x, y) && (x, y) in picture
    ensures var c := picture[(x, y)];
            && Shown(send, c, before) == (if send.rgb then Opaqued(c) else c)
            && (pngOnly && send.rgb ==> Opaqued(c) == c)
  {
    hide FullAlpha, Opaqued, Over;
    OverNothing(picture[(x, y)]);
    OpaquedIsOpaque(picture[(x, y)]);
  }

  /** Images that have no alpha channel or clear their area first: the client then shows
      each pixel they cover as it is, if the last of them to cover it has an alpha
      channel or all are PNG, and else without its alpha channel. */
  lemma {:induction false} FaithfulImages(sent: seq<Instr>, layer: int, sends: seq<Sending>, picture: Picture,
                                          pngOnly: bool, x: int, y: int)
    requires (x, y) in picture && Covered(sends, x, y)
    requires AllFaithful(sends, picture, pngOnly)
    ensures var after, c := sent + Images(layer, sends, picture), picture[(x, y)];
            ClientAt(after, layer, x, y) == if pngOnly || DrawnWithAlpha(after, layer, x, y) then c else Opaqued(c)
    decreases |sends|
  {
    hide ClientAt, DrawnWithAlpha, Shown, ImageInstrs, Images, Covered, Faithful, Opaqued;
    if sends == [] {
      NothingCovered(x, y);
    } else {
      var front, send := sends[..|sends| - 1], sends[|sends| - 1];
      assert sends == front + [send];
      var mid := sent + Images(layer, front, picture);
      ImagesSnoc(sent, layer, front, send, picture);
      CoveredSnoc(front, send, x, y);
      ReplayImage(mid, layer, send, picture, layer, x, y);
      DrawnByImage(mid, layer, send, picture, x, y);
      if send.rect.Has(x, y) {
        FaithfulShows(send, picture, pngOnly, x, y, ClientAt(mid, layer, x, y));
      } else {
        FaithfulImages(sent, layer, front, picture, pngOnly, x, y);
      }
    }
  }

  lemma OpaqueIsShown(send: Sending, c: Color, before: Color)
    requires FullAlpha(c)
    ensures Shown(send, c, before) == c
  {
    hide FullAlpha, Opaqued;
    OpaquedIsOpaque(c);
  }

  /** An opaque pixel arrives with every image that covers it. */
  lemma {:induction false} OpaqueArrives(sends: seq<Sending>, x: int, y: int, c: Color, before: Color)
    requires FullAlpha(c)
    ensures PixelAfter(sends, x, y, c, before) == if Covered(sends, x, y) then c else before
  {
    hide Shown, Covered, FullAlpha;
    if sends == [] {
      NothingCovered(x, y);
    } else {
      OpaqueIsShown(sends[0], c, before);
      OpaqueArrives(sends[1..], x, y, c, if sends[0].rect.Has(x, y) then c else before);
      CoveredCons(sends[0], sends[1..], x, y);
      assert sends == [sends[0]] + sends[1..];
    }
  }

  /** Whether a pixel arrives is decided by the last image that covers it: without
      alpha channel only an opaque pixel does; with the area cleared first every
      pixel does; otherwise those that OVER what is there gives. */
  lemma ArrivesIff(sends: seq<Sending>, send: Sending, x: int, y: int, c: Color, before: Color)
    requires send.rect.Has(x, y)
    ensures PixelAfter(sends + [send], x, y, c, before) == c <==>
            if send.rgb then FullAlpha(c)
            else send.clear || Over(c, PixelAfter(sends, x, y, c, before)) == c
  {
    hide FullAlpha, Opaqued, PixelAfter;
    PixelAfterAppend(sends, send, x, y, c, before);
    OpaquedIsOpaque(c);
    OverNothing(c);
  }

  /** A WebP image does not clear its area, so a pixel that has become transparent
      stays visible; and an image without alpha channel that has grown over a
      transparent pixel makes it black. */
  lemma TransparentPixelsLost(rect: Rect, before: Color)
    requires before != 0
    ensures Shown(Sending(rect, false, false), 0, before) == before != 0
    ensures Shown(Sending(rect, true, false), 0, before) == OPAQUE_BLACK != 0
  {
  }

  // ------------------------------------------------------------------ coverage

  /** An instruction sent after the first n covers the pixel. */
  ghost predicate SentOver(sent: seq<Instr>, n: nat, layer: int, x: int, y: int) {
    exists k :: n <= k < |sent| && sent[k].layer == layer && sent[k].rect.Has(x, y)
  }

  lemma SentOverStays(sent: seq<Instr>, more: seq<Instr>, n: nat, layer: int, x: int, y: int)
    requires SentOver(sent, n, layer, x, y)
    ensures SentOver(sent + more, n, layer, x, y)
  {
    var k :| n <= k < |sent| && sent[k].layer == layer && sent[k].rect.Has(x, y);
    assert (sent + more)[k] == sent[k];
  }

  lemma LastCovers(sent: seq<Instr>, more: seq<Instr>, layer: int, x: int, y: int)
    requires more != [] && more[|more| - 1].layer == layer && more[|more| - 1].rect.Has(x, y)
    ensures SentOver(sent + more, |sent|, layer, x, y)
  {
    assert (sent + more)[|sent + more| - 1] == more[|more| - 1];
  }

  lemma SentOverEarlier(sent: seq<Instr>, n: nat, m: nat, layer: int, x: int, y: int)
    requires m <= n && SentOver(sent, n, layer, x, y)
    ensures SentOver(sent, m, layer, x, y)
  {
  }

  lemma {:induction false} ImagesCover(sent: seq<Instr>, layer: int, sends: seq<Sending>, picture: Picture, x: int, y: int)
    requires Covered(sends, x, y)
    ensures SentOver(sent + Images(layer, sends, picture), |sent|, layer, x, y)
    decreases |sends|
  {
    hide SentOver, Covered;
    if sends == [] {
      NothingCovered(x, y);
    } else {
      var first, rest := ImageInstrs(layer, sends[0], picture), Images(layer, sends[1..], picture);
      assert sends == [sends[0]] + sends[1..];
      CoveredCons(sends[0], sends[1..], x, y);
      assert sent + Images(layer, sends, picture) == (sent + first) + rest;
      if sends[0].rect.Has(x, y) {
        LastCovers(sent, first, layer, x, y);
        SentOverStays(sent + first, rest, |sent|, layer, x, y);
      } else {
        ImagesCover(sent + first, layer, sends[1..], picture, x, y);
        SentOverEarlier((sent + first) + rest, |sent + first|, |sent|, layer, x, y);
      }
    }
  }

  /** A surface at one moment: its pixels, those waiting to be sent, and what has
      been sent on its connection. */
  datatype Moment = Moment(picture: Picture, waiting: iset<(int, int)>, sent: seq<Instr>)

  ghost predicate Whole(m: Moment, bounds: Rect) {
    forall x, y :: bounds.Has(x, y) ==> (x, y) in m.picture
  }

  /** From one moment to a later one, every pixel that changed or was waiting is
      waiting now or was covered by an instruction sent since. */
  ghost predicate Accounted(m: Moment, n: Moment, bounds: Rect, layer: int) {
    && m.sent <= n.sent && Whole(m, bounds) && Whole(n, bounds)
    && forall x, y :: bounds.Has(x, y) && (n.picture[(x, y)] != m.picture[(x, y)] || (x, y) in m.waiting) ==>
         (x, y) in n.waiting || SentOver(n.sent, |m.sent|, layer, x, y)
  }

  /** Every opaque pixel is waiting or is what the client shows. */
  ghost predicate InStep(m: Moment, bounds: Rect, layer: int) {
    forall x, y :: bounds.Has(x, y) ==>
      (x, y) in m.picture &&
      (FullAlpha(m.picture[(x, y)]) ==> (x, y) in m.waiting || ClientAt(m.sent, layer, x, y) == m.picture[(x, y)])
  }

  lemma InStepAt(m: Moment, bounds: Rect, layer: int, x: int, y: int)
    requires InStep(m, bounds, layer) && bounds.Has(x, y)
    ensures (x, y) in m.picture
    ensures FullAlpha(m.picture[(x, y)]) ==> (x, y) in m.waiting || ClientAt(m.sent, layer, x, y) == m.picture[(x, y)]
  {
    hide FullAlpha, ClientAt;
  }

  /** Coverage adds up over the steps of a run. */
  lemma AccountedTrans(m: Moment, n: Moment, o: Moment, bounds: Rect, layer: int)
    requires Accounted(m, n, bounds, layer) && Accounted(n, o, bounds, layer)
    ensures Accounted(m, o, bounds, layer)
  {
    hide SentOver;
    forall x, y | bounds.Has(x, y) && (o.picture[(x, y)] != m.picture[(x, y)] || (x, y) in m.waiting)
      ensures (x, y) in o.waiting || SentOver(o.sent, |m.sent|, layer, x, y)
    {
      if SentOver(o.sent, |n.sent|, layer, x, y) {
        SentOverEarlier(o.sent, |n.sent|, |m.sent|, layer, x, y);
      } else if SentOver(n.sent, |m.sent|, layer, x, y) {
        SentOverStays(n.sent, o.sent[|n.sent|..], |m.sent|, layer, x, y);
        assert o.sent == n.sent + o.sent[|n.sent|..];
      }
    }
  }

  /** Nothing happened to the surface, though others may have sent. */
  lemma Bystander(m: Moment, more: seq<Instr>, bounds: Rect, layer: int)
    requires Whole(m, bounds)
    ensures Accounted(m, m.(sent := m.sent + more), bounds, layer)
  {
    hide SentOver;
  }
}
