/** How the ways of telling the client of an update keep it in step
    (src/common/surface.c): images alone, images and then a fill, and images of
    two surfaces and then a copy or a transfer between them. */
module Shipping {
  import opened Rects
  import opened Bits
  import opened Operators
  import opened Pixels
  import opened Updates
  import opened Clients

  // -------------------------------------------------------- images, one instruction

  /** An update that is sent as images, or left waiting. */
  lemma ImagesStep(m: Moment, n: Moment, bounds: Rect, layer: int, sends: seq<Sending>)
    requires Whole(m, bounds) && Whole(n, bounds) && n.sent == m.sent + Images(layer, sends, n.picture)
    requires forall x, y :: bounds.Has(x, y) && (n.picture[(x, y)] != m.picture[(x, y)] || (x, y) in m.waiting) ==>
               (x, y) in n.waiting || Covered(sends, x, y)
    ensures Accounted(m, n, bounds, layer)
    ensures InStep(m, bounds, layer) ==> InStep(n, bounds, layer)
  {
    hide Covered, SentOver, ClientAt, Images, FullAlpha;
    forall x, y | bounds.Has(x, y) && Covered(sends, x, y) ensures SentOver(n.sent, |m.sent|, layer, x, y) {
      ImagesCover(m.sent, layer, sends, n.picture, x, y);
    }
    if InStep(m, bounds, layer) {
      forall x, y | bounds.Has(x, y) && FullAlpha(n.picture[(x, y)])
        ensures (x, y) in n.waiting || ClientAt(n.sent, layer, x, y) == n.picture[(x, y)]
      {
        ReplayImages(m.sent, layer, sends, n.picture, layer, x, y);
        OpaqueArrives(sends, x, y, n.picture[(x, y)], ClientAt(m.sent, layer, x, y));
      }
    }
  }

  /** One more instruction for an area that was waiting. */
  lemma InstrStep(m: Moment, n: Moment, bounds: Rect, instr: Instr)
    requires Whole(m, bounds) && n.picture == m.picture && n.sent == m.sent + [instr]
    requires forall x, y :: bounds.Has(x, y) && (x, y) in m.waiting ==> (x, y) in n.waiting || instr.rect.Has(x, y)
    ensures Accounted(m, n, bounds, instr.layer)
    ensures InStep(m, bounds, instr.layer) &&
            (forall x, y :: bounds.Has(x, y) && instr.rect.Has(x, y) && FullAlpha(m.picture[(x, y)]) ==>
               ClientAt(n.sent, instr.layer, x, y) == m.picture[(x, y)]) ==>
              InStep(n, bounds, instr.layer)
  {
    hide SentOver, ClientAt, FullAlpha, Over, Opaqued, TransferInt;
    forall x, y | bounds.Has(x, y) && instr.rect.Has(x, y) ensures SentOver(n.sent, |m.sent|, instr.layer, x, y) {
      LastCovers(m.sent, [instr], instr.layer, x, y);
    }
    forall x, y | !instr.rect.Has(x, y)
      ensures ClientAt(n.sent, instr.layer, x, y) == ClientAt(m.sent, instr.layer, x, y)
    {
      ReplayOne(m.sent, instr, instr.layer, x, y);
    }
  }

  /** Instructions for other layers. */
  lemma OthersStep(m: Moment, n: Moment, bounds: Rect, layer: int)
    requires Whole(m, bounds) && n.picture == m.picture && n.waiting == m.waiting && m.sent <= n.sent
    ensures Accounted(m, n, bounds, layer)
    ensures (forall x, y :: ClientAt(n.sent, layer, x, y) == ClientAt(m.sent, layer, x, y)) && InStep(m, bounds, layer) ==>
              InStep(n, bounds, layer)
  {
    hide SentOver, ClientAt, FullAlpha;
    Bystander(m, n.sent[|m.sent|..], bounds, layer);
    assert n.sent == m.sent + n.sent[|m.sent|..];
  }

  /** An opaque fill, sent after everything that waited. */
  lemma FillStep(m: Moment, n: Moment, bounds: Rect, layer: int, sends: seq<Sending>, box: Rect, color: Color)
    requires Whole(m, bounds) && Whole(n, bounds) && FullAlpha(color)
    requires n.sent == m.sent + Images(layer, sends, n.picture) + [CFill(layer, box, color)]
    requires forall x, y :: bounds.Has(x, y) && box.Has(x, y) ==> n.picture[(x, y)] == color
    requires forall x, y :: bounds.Has(x, y) && n.picture[(x, y)] != m.picture[(x, y)] ==> box.Has(x, y)
    requires forall x, y :: bounds.Has(x, y) && (x, y) in m.waiting ==> Covered(sends, x, y)
    ensures Accounted(m, n, bounds, layer)
    ensures InStep(m, bounds, layer) ==> InStep(n, bounds, layer)
  {
    hide Covered, SentOver, ClientAt, Images, FullAlpha, Accounted, InStep, TransferInt, Opaqued;
    var inBox := iset p: (int, int) | box.Has(p.0, p.1);
    var mid := Moment(n.picture, n.waiting + inBox, m.sent + Images(layer, sends, n.picture));
    ImagesStep(m, mid, bounds, layer, sends);
    var instr := CFill(layer, box, color);
    forall x, y | box.Has(x, y) ensures ClientAt(n.sent, layer, x, y) == color {
      ReplayOne(mid.sent, instr, layer, x, y);
    }
    InstrStep(mid, n, bounds, instr);
    AccountedTrans(m, mid, n, bounds, layer);
  }

  // -------------------------------------------------------- copies and transfers

  /** A copy is made locally as the transfer SRC, but told the client as a copy with
      the operator OVER; a transfer is told as it is. */
  datatype Tell = ByCopy | ByTransfer(op: TransferFn)

  function LocalOp(tell: Tell): TransferFn { if tell.ByCopy? then Src else tell.op }

  /** What the client makes of its source and destination pixels. */
  function Told(tell: Tell, s: Color, d: Color): Color {
    if tell.ByCopy? then Over(s, d) else TransferInt(tell.op, s, d)
  }

  function TellInstr(tell: Tell, src: int, sx: int, sy: int, dst: int, rect: Rect): Instr {
    if tell.ByCopy? then Copy(src, sx, sy, dst, rect) else Xfer(src, sx, sy, tell.op, dst, rect)
  }

  /** Nothing depends on what the client has for a source pixel that is not opaque. */
  predicate SourceKnown(tell: Tell, s: Color) {
    FullAlpha(s) || LocalOp(tell) in {Black, White, Src, NSrc, Dest, NDest}
  }

  /** The client gets an opaque result right if it has the opaque ones of source and
      destination right. */
  lemma TellCarries(tell: Tell, s: Color, d: Color, s': Color, d': Color)
    requires SourceKnown(tell, s) && (FullAlpha(s) ==> s' == s) && (FullAlpha(d) ==> d' == d)
    requires FullAlpha(TransferInt(LocalOp(tell), s, d))
    ensures Told(tell, s', d') == TransferInt(LocalOp(tell), s, d)
  {
    hide FullAlpha, TransferInt;
    AlphaOf(LocalOp(tell), s, d);
    IgnoresSource(LocalOp(tell), s, s', d');
    IgnoresDest(LocalOp(tell), s, d, d');
    if tell.ByCopy? {
      SrcCopies(s, d);
    }
  }

  /** Where a result that has arrived is told again, it stays if telling it again
      would not change it. */
  lemma TellAgain(tell: Tell, s: Color, d: Color, s': Color)
    requires SourceKnown(tell, s) && (FullAlpha(s) ==> s' == s)
    requires FullAlpha(TransferInt(LocalOp(tell), s, d))
    ensures var r := TransferInt(LocalOp(tell), s, d); Told(tell, s', r) == r <==> Told(tell, s, r) == r
  {
    hide FullAlpha, TransferInt;
    var r := TransferInt(LocalOp(tell), s, d);
    AlphaOf(LocalOp(tell), s, d);
    IgnoresSource(LocalOp(tell), s, s', r);
    if tell.ByCopy? {
      SrcCopies(s, d);
    }
  }

  /** A repeatable function, and a copy of an opaque pixel, may be told again. */
  lemma RepeatingIsHarmless(tell: Tell, s: Color, d: Color)
    requires tell.ByCopy? || Repeatable(tell.op)
    requires FullAlpha(TransferInt(LocalOp(tell), s, d))
    ensures var r := TransferInt(LocalOp(tell), s, d); Told(tell, s, r) == r
  {
    hide FullAlpha, TransferInt, Repeatable;
    if tell.ByCopy? {
      SrcCopies(s, d);
    } else {
      RepeatableOpsAreIdempotent(tell.op, s, d);
    }
  }

  lemma ReplayTell(sent: seq<Instr>, tell: Tell, src: int, sx: int, sy: int, dst: int, rect: Rect, x: int, y: int)
    requires rect.Has(x, y)
    ensures ClientAt(sent + [TellInstr(tell, src, sx, sy, dst, rect)], dst, x, y) ==
            Told(tell, ClientAt(sent, src, x - rect.x + sx, y - rect.y + sy), ClientAt(sent, dst, x, y))
  {
    hide ClientAt, Over, TransferInt, Opaqued;
    ReplayOne(sent, TellInstr(tell, src, sx, sy, dst, rect), dst, x, y);
  }

  // ------------------------------------------------------- between two surfaces

  /** A copy or transfer from one surface to another that the client is told at
      once: the destination, changed already, is flushed, then the source, and then
      the client is told to do the same with the box of pixels that changed. */
  datatype Across = Across(tell: Tell, sent: seq<Instr>, dst: int, dstSends: seq<Sending>, result: Picture,
                           src: int, srcSends: seq<Sending>, source: Picture, sx: int, sy: int, box: Rect)
  {
    ghost function Flushed(): seq<Instr> {
      sent + Images(dst, dstSends, result) + Images(src, srcSends, source)
    }

    ghost function After(): seq<Instr> {
      Flushed() + [TellInstr(tell, src, sx, sy, dst, box)]
    }

    /** The source pixel of a pixel of the box. */
    function From(x: int, y: int): (int, int) { (x - box.x + sx, y - box.y + sy) }

    ghost predicate Valid() {
      && src != dst
      && (forall x, y {:trigger box.Has(x, y)} :: box.Has(x, y) ==> (x, y) in result && From(x, y) in source)
    }
  }

  /** Both layers after the flushes. */
  lemma AcrossFlushed(a: Across, x: int, y: int)
    requires a.src != a.dst
    ensures (x, y) in a.result ==>
              ClientAt(a.Flushed(), a.dst, x, y) ==
              PixelAfter(a.dstSends, x, y, a.result[(x, y)], ClientAt(a.sent, a.dst, x, y))
    ensures (x, y) in a.source ==>
              ClientAt(a.Flushed(), a.src, x, y) ==
              PixelAfter(a.srcSends, x, y, a.source[(x, y)], ClientAt(a.sent, a.src, x, y))
  {
    hide ClientAt, PixelAfter, Images;
    var mid := a.sent + Images(a.dst, a.dstSends, a.result);
    if (x, y) in a.result {
      ReplayImages(a.sent, a.dst, a.dstSends, a.result, a.dst, x, y);
      ReplayImages(mid, a.src, a.srcSends, a.source, a.dst, x, y);
    }
    if (x, y) in a.source {
      ReplayImages(a.sent, a.dst, a.dstSends, a.result, a.src, x, y);
      ReplayImages(mid, a.src, a.srcSends, a.source, a.src, x, y);
    }
  }

  /** What the client shows of a pixel of the box, exactly. */
  lemma AcrossPixel(a: Across, x: int, y: int)
    requires a.Valid() && a.box.Has(x, y)
    ensures var q := a.From(x, y);
            ClientAt(a.After(), a.dst, x, y) ==
            Told(a.tell, PixelAfter(a.srcSends, q.0, q.1, a.source[q], ClientAt(a.sent, a.src, q.0, q.1)),
                 PixelAfter(a.dstSends, x, y, a.result[(x, y)], ClientAt(a.sent, a.dst, x, y)))
  {
    hide ClientAt, PixelAfter, Images, Told, TellInstr;
    var q := a.From(x, y);
    AcrossFlushed(a, x, y);
    AcrossFlushed(a, q.0, q.1);
    ReplayTell(a.Flushed(), a.tell, a.src, a.sx, a.sy, a.dst, a.box, x, y);
  }

  /** The pixel of the result is that of the function on old source and old
      destination. */
  ghost predicate Computed(a: Across, before: Picture) {
    forall x, y {:trigger a.box.Has(x, y)} :: a.box.Has(x, y) ==>
      && (x, y) in a.result && a.From(x, y) in a.source && (x, y) in before
      && a.result[(x, y)] == TransferInt(LocalOp(a.tell), a.source[a.From(x, y)], before[(x, y)])
  }

  /** For a pixel of the box the client is in step unless it has been sent with the
      function applied, and applying it again changes it. */
  lemma AcrossInStep(a: Across, md: Moment, ms: Moment, bd: Rect, bs: Rect, x: int, y: int)
    requires a.Valid() && Computed(a, md.picture) && md.sent == a.sent == ms.sent && ms.picture == a.source
    requires a.box.Has(x, y) && bd.Has(x, y) && bs.Has(a.From(x, y).0, a.From(x, y).1)
    requires InStep(md, bd, a.dst) && InStep(ms, bs, a.src)
    requires (x, y) in md.waiting ==> Covered(a.dstSends, x, y)
    requires a.From(x, y) in ms.waiting ==> Covered(a.srcSends, a.From(x, y).0, a.From(x, y).1)
    requires FullAlpha(a.result[(x, y)]) && SourceKnown(a.tell, a.source[a.From(x, y)])
    ensures ClientAt(a.After(), a.dst, x, y) == a.result[(x, y)] <==>
            (Covered(a.dstSends, x, y) ==> Told(a.tell, a.source[a.From(x, y)], a.result[(x, y)]) == a.result[(x, y)])
  {
    hide ClientAt, PixelAfter, Images, Told, TellInstr, Covered, FullAlpha, TransferInt, SourceKnown, LocalOp, InStep;
    var q := a.From(x, y);
    InStepAt(md, bd, a.dst, x, y);
    InStepAt(ms, bs, a.src, q.0, q.1);
    var s, d, r := a.source[q], md.picture[(x, y)], a.result[(x, y)];
    var s' := PixelAfter(a.srcSends, q.0, q.1, s, ClientAt(a.sent, a.src, q.0, q.1));
    AcrossPixel(a, x, y);
    if FullAlpha(s) {
      OpaqueArrives(a.srcSends, q.0, q.1, s, ClientAt(a.sent, a.src, q.0, q.1));
    }
    OpaqueArrives(a.dstSends, x, y, r, ClientAt(a.sent, a.dst, x, y));
    if Covered(a.dstSends, x, y) {
      TellAgain(a.tell, s, d, s');
    } else {
      TellCarries(a.tell, s, d, s', ClientAt(a.sent, a.dst, x, y));
    }
  }

  /** The moments before and after such a step. */
  ghost predicate Ready(a: Across, md: Moment, nd: Moment, ms: Moment, ns: Moment, bd: Rect, bs: Rect) {
    && a.Valid() && Computed(a, md.picture) && md.sent == a.sent == ms.sent && nd.sent == a.After() == ns.sent
    && Whole(md, bd) && Whole(nd, bd) && nd.picture == a.result
    && Whole(ms, bs) && ns.picture == ms.picture == a.source
    && (forall x, y {:trigger a.box.Has(x, y)} :: a.box.Has(x, y) ==>
          bd.Has(x, y) && bs.Has(a.From(x, y).0, a.From(x, y).1))
    && (forall x, y :: bd.Has(x, y) && (x, y) in md.waiting ==> Covered(a.dstSends, x, y))
    && (forall x, y {:trigger nd.picture[(x, y)]} :: bd.Has(x, y) && nd.picture[(x, y)] != md.picture[(x, y)] ==>
          a.box.Has(x, y))
    && (forall x, y :: bs.Has(x, y) && (x, y) in ms.waiting ==> Covered(a.srcSends, x, y))
  }

  /** An opaque pixel of the box that depends on a source pixel which is not opaque,
      or that is harmed by being told again. */
  ghost predicate Harmed(a: Across, x: int, y: int) {
    && a.box.Has(x, y) && (x, y) in a.result && a.From(x, y) in a.source && FullAlpha(a.result[(x, y)])
    && (!SourceKnown(a.tell, a.source[a.From(x, y)]) ||
        (Covered(a.dstSends, x, y) && Told(a.tell, a.source[a.From(x, y)], a.result[(x, y)]) != a.result[(x, y)]))
  }

  lemma AcrossSource(a: Across, ms: Moment, ns: Moment, bs: Rect)
    requires a.src != a.dst && ms.sent == a.sent && ns.sent == a.After()
    requires Whole(ms, bs) && ns.picture == ms.picture == a.source
    requires forall x, y :: bs.Has(x, y) && (x, y) in ms.waiting ==> Covered(a.srcSends, x, y)
    ensures Accounted(ms, ns, bs, a.src)
    ensures InStep(ms, bs, a.src) ==> InStep(ns, bs, a.src)
  {
    hide ClientAt, PixelAfter, Images, Covered, FullAlpha, SentOver, Accounted, InStep;
    var mid := ms.(sent := a.sent + Images(a.dst, a.dstSends, a.result));
    var flushed := ns.(sent := a.Flushed());
    forall x, y ensures ClientAt(mid.sent, a.src, x, y) == ClientAt(ms.sent, a.src, x, y) {
      ReplayImages(a.sent, a.dst, a.dstSends, a.result, a.src, x, y);
    }
    OthersStep(ms, mid, bs, a.src);
    ImagesStep(mid, flushed, bs, a.src, a.srcSends);
    var instr := TellInstr(a.tell, a.src, a.sx, a.sy, a.dst, a.box);
    forall x, y ensures ClientAt(ns.sent, a.src, x, y) == ClientAt(flushed.sent, a.src, x, y) {
      ReplayOne(flushed.sent, instr, a.src, x, y);
    }
    OthersStep(flushed, ns, bs, a.src);
    AccountedTrans(ms, mid, flushed, bs, a.src);
    AccountedTrans(ms, flushed, ns, bs, a.src);
  }

  lemma AcrossDest(a: Across, md: Moment, nd: Moment, bd: Rect)
    requires a.src != a.dst && md.sent == a.sent && nd.sent == a.After()
    requires Whole(md, bd) && Whole(nd, bd) && nd.picture == a.result
    requires forall x, y :: bd.Has(x, y) && (x, y) in md.waiting ==> Covered(a.dstSends, x, y)
    requires forall x, y :: bd.Has(x, y) && nd.picture[(x, y)] != md.picture[(x, y)] ==> a.box.Has(x, y)
    ensures Accounted(md, nd, bd, a.dst)
    ensures InStep(md, bd, a.dst) &&
            (forall x, y :: bd.Has(x, y) && a.box.Has(x, y) && FullAlpha(a.result[(x, y)]) ==>
               ClientAt(a.After(), a.dst, x, y) == a.result[(x, y)]) ==>
              InStep(nd, bd, a.dst)
  {
    hide ClientAt, PixelAfter, Images, Covered, FullAlpha, SentOver, Accounted, InStep;
    var waiting := nd.waiting + iset p: (int, int) | a.box.Has(p.0, p.1);
    var mid := Moment(a.result, waiting, a.sent + Images(a.dst, a.dstSends, a.result));
    ImagesStep(md, mid, bd, a.dst, a.dstSends);
    var flushed := mid.(sent := a.Flushed());
    forall x, y ensures ClientAt(flushed.sent, a.dst, x, y) == ClientAt(mid.sent, a.dst, x, y) {
      ReplayImages(mid.sent, a.src, a.srcSends, a.source, a.dst, x, y);
    }
    OthersStep(mid, flushed, bd, a.dst);
    InstrStep(flushed, nd, bd, TellInstr(a.tell, a.src, a.sx, a.sy, a.dst, a.box));
    AccountedTrans(md, mid, flushed, bd, a.dst);
    AccountedTrans(md, flushed, nd, bd, a.dst);
  }

  /** The step as a whole: nothing goes missing, the source stays in step, and the
      destination does if no pixel is harmed. */
  lemma AcrossStep(a: Across, md: Moment, nd: Moment, ms: Moment, ns: Moment, bd: Rect, bs: Rect)
    requires Ready(a, md, nd, ms, ns, bd, bs)
    ensures Accounted(md, nd, bd, a.dst) && Accounted(ms, ns, bs, a.src)
    ensures InStep(ms, bs, a.src) ==> InStep(ns, bs, a.src)
    ensures InStep(md, bd, a.dst) && InStep(ms, bs, a.src) && (forall x, y :: !Harmed(a, x, y)) ==> InStep(nd, bd, a.dst)
  {
    hide ClientAt, PixelAfter, Images, Told, TellInstr, Covered, FullAlpha, TransferInt, SourceKnown, SentOver, Accounted, InStep;
    AcrossSource(a, ms, ns, bs);
    AcrossDest(a, md, nd, bd);
    if InStep(md, bd, a.dst) && InStep(ms, bs, a.src) {
      forall x, y | a.box.Has(x, y) && FullAlpha(a.result[(x, y)]) && !Harmed(a, x, y)
        ensures ClientAt(a.After(), a.dst, x, y) == a.result[(x, y)]
      {
        AcrossInStep(a, md, ms, bd, bs, x, y);
      }
    }
  }

  // --------------------------------------------------------- within one surface

  /** A copy or transfer within one surface that the client is told first: the
      surface is flushed, the client told, and then the surface changes. */
  datatype Within = Within(tell: Tell, sent: seq<Instr>, layer: int, sends: seq<Sending>, source: Picture,
                           sx: int, sy: int, area: Rect)
  {
    ghost function Flushed(): seq<Instr> { sent + Images(layer, sends, source) }

    ghost function After(): seq<Instr> { Flushed() + [TellInstr(tell, layer, sx, sy, layer, area)] }

    function From(x: int, y: int): (int, int) { (x - area.x + sx, y - area.y + sy) }

    /** The picture after the change, at one pixel and everywhere. */
    ghost predicate GivesAt(result: Picture, bounds: Rect, x: int, y: int) {
      if area.Has(x, y) then
        && bounds.Has(x, y) && bounds.Has(From(x, y).0, From(x, y).1)
        && (x, y) in source && From(x, y) in source && (x, y) in result
        && result[(x, y)] == TransferInt(LocalOp(tell), source[From(x, y)], source[(x, y)])
      else
        bounds.Has(x, y) ==> (x, y) in source && (x, y) in result && result[(x, y)] == source[(x, y)]
    }

    ghost predicate Gives(result: Picture, bounds: Rect) {
      forall x, y :: GivesAt(result, bounds, x, y)
    }

    /** The result is opaque but depends on a source pixel that is not. */
    ghost predicate DependsAt(result: Picture, x: int, y: int) {
      area.Has(x, y) && (x, y) in result && From(x, y) in source && FullAlpha(result[(x, y)]) &&
      !SourceKnown(tell, source[From(x, y)])
    }
  }

  /** The client after the flush, and after being told. */
  lemma WithinFlushed(w: Within, m: Moment, bounds: Rect)
    requires m.sent == w.sent && m.picture == w.source && Whole(m, bounds)
    requires forall x, y :: bounds.Has(x, y) && (x, y) in m.waiting ==> Covered(w.sends, x, y)
    ensures Accounted(m, Moment(w.source, iset{}, w.Flushed()), bounds, w.layer)
    ensures InStep(m, bounds, w.layer) ==> InStep(Moment(w.source, iset{}, w.Flushed()), bounds, w.layer)
  {
    hide ClientAt, Images, Covered, FullAlpha, SentOver, Accounted, InStep;
    ImagesStep(m, Moment(w.source, iset{}, w.Flushed()), bounds, w.layer, w.sends);
  }

  /** After the flush the client has the pixel, if that is opaque. */
  ghost predicate HasRight(w: Within, p: (int, int)) {
    p in w.source && (FullAlpha(w.source[p]) ==> ClientAt(w.Flushed(), w.layer, p.0, p.1) == w.source[p])
  }

  lemma TellElsewhere(w: Within, x: int, y: int)
    requires !w.area.Has(x, y)
    ensures ClientAt(w.After(), w.layer, x, y) == ClientAt(w.Flushed(), w.layer, x, y)
  {
    hide ClientAt, Images;
    ReplayOne(w.Flushed(), TellInstr(w.tell, w.layer, w.sx, w.sy, w.layer, w.area), w.layer, x, y);
  }

  lemma WithinPixel(w: Within, result: Picture, bounds: Rect, x: int, y: int)
    requires w.GivesAt(result, bounds, x, y) && bounds.Has(x, y) && (x, y) in result && HasRight(w, (x, y))
    requires w.area.Has(x, y) ==> HasRight(w, w.From(x, y))
    requires FullAlpha(result[(x, y)]) && !w.DependsAt(result, x, y)
    ensures ClientAt(w.After(), w.layer, x, y) == result[(x, y)]
  {
    hide ClientAt, Images, FullAlpha, TransferInt, SourceKnown, Told, TellInstr, LocalOp;
    if w.area.Has(x, y) {
      var q := w.From(x, y);
      ReplayTell(w.Flushed(), w.tell, w.layer, w.sx, w.sy, w.layer, w.area, x, y);
      TellCarries(w.tell, w.source[q], w.source[(x, y)],
                  ClientAt(w.Flushed(), w.layer, q.0, q.1), ClientAt(w.Flushed(), w.layer, x, y));
    } else {
      TellElsewhere(w, x, y);
    }
  }

  lemma TellIsFor(tell: Tell, src: int, sx: int, sy: int, dst: int, rect: Rect)
    ensures var i := TellInstr(tell, src, sx, sy, dst, rect); i.layer == dst && i.rect == rect
  {
  }

  lemma WithinTold(w: Within, n: Moment, bounds: Rect)
    requires Whole(n, bounds) && n.sent == w.After() && w.Gives(n.picture, bounds)
    requires Whole(Moment(w.source, iset{}, w.Flushed()), bounds)
    ensures Accounted(Moment(w.source, iset{}, w.Flushed()), n, bounds, w.layer)
  {
    hide Images, SentOver, TransferInt, TellInstr, LocalOp;
    TellIsFor(w.tell, w.layer, w.sx, w.sy, w.layer, w.area);
    forall x, y | bounds.Has(x, y) && n.picture[(x, y)] != w.source[(x, y)]
      ensures SentOver(n.sent, |w.Flushed()|, w.layer, x, y)
    {
      assert w.GivesAt(n.picture, bounds, x, y);
      LastCovers(w.Flushed(), [TellInstr(w.tell, w.layer, w.sx, w.sy, w.layer, w.area)], w.layer, x, y);
    }
  }

  /** Nothing goes missing, and the client stays in step unless a source pixel that
      matters is not opaque. */
  lemma WithinStep(w: Within, m: Moment, n: Moment, bounds: Rect)
    requires m.sent == w.sent && m.picture == w.source && Whole(m, bounds) && Whole(n, bounds)
    requires n.sent == w.After() && w.Gives(n.picture, bounds)
    requires forall x, y :: bounds.Has(x, y) && (x, y) in m.waiting ==> Covered(w.sends, x, y)
    ensures Accounted(m, n, bounds, w.layer)
    ensures InStep(m, bounds, w.layer) && (forall x, y :: !w.DependsAt(n.picture, x, y)) ==> InStep(n, bounds, w.layer)
  {
    hide ClientAt, Images, Covered, FullAlpha, SentOver, TransferInt, SourceKnown, TellInstr, LocalOp, Accounted;
    WithinFlushed(w, m, bounds);
    WithinTold(w, n, bounds);
    AccountedTrans(m, Moment(w.source, iset{}, w.Flushed()), n, bounds, w.layer);
    if InStep(m, bounds, w.layer) {
      forall x, y | bounds.Has(x, y) && FullAlpha(n.picture[(x, y)]) && !w.DependsAt(n.picture, x, y)
        ensures ClientAt(n.sent, w.layer, x, y) == n.picture[(x, y)]
      {
        assert w.GivesAt(n.picture, bounds, x, y);
        WithinPixel(w, n.picture, bounds, x, y);
      }
    }
  }
}
