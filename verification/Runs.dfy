/** Whole runs of calls on two surfaces of one connection (src/common/surface.c):
    nothing a call changes ever goes missing, and what the client shows. */
module Runs {
  import opened Rects
  import opened Bits
  import opened Operators
  import opened Pixels
  import opened Updates
  import opened Clients
  import opened Shipping
  import opened Calls
  import opened Surfaces

  /** One call on either of two surfaces; `first` selects which. */
  datatype Step =
    | DrawStep(first: bool, x: int, y: int, image: Image, ignoreAlpha: bool)
    | PaintStep(first: bool, x: int, y: int, image: Image, red: bv8, green: bv8, blue: bv8)
    | SetStep(first: bool, x: int, y: int, w: int, h: int, color: Color)
    | TransferStep(first: bool, sx: int, sy: int, w: int, h: int, op: TransferFn, ontoFirst: bool, dx: int, dy: int)
    | CopyStep(first: bool, sx: int, sy: int, w: int, h: int, ontoFirst: bool, dx: int, dy: int)
    | ClipStep(first: bool, x: int, y: int, w: int, h: int)
    | ResetClipStep(first: bool)
    | FlushStep(first: bool)
  {
    /** No transfer, unless with a function of one of its pixels that may be repeated. */
    predicate Plain() {
      this.TransferStep? ==> op in {Black, White, Src, Dest, NSrc}
    }

    /** Keeps opaque surfaces opaque and in step: fills are opaque, and transfers
        between the surfaces repeatable. */
    predicate Solid() {
      && (this.SetStep? ==> FullAlpha(color))
      && (this.TransferStep? ==> first == ontoFirst || Repeatable(op))
    }
  }

  ghost predicate Paired(a: Surface, b: Surface)
    reads a, b
  {
    && a != b && a.socket == b.socket && a.layer != b.layer && a.buffer != b.buffer
    && a.Valid() && b.Valid()
  }

  ghost predicate Opaque(m: Moment, bounds: Rect) {
    forall x, y :: bounds.Has(x, y) ==> (x, y) in m.picture && FullAlpha(m.picture[(x, y)])
  }

  lemma StandsStill(m: Moment, bounds: Rect, layer: int)
    requires Whole(m, bounds)
    ensures Keeps(m, m, bounds, layer)
  {
    Bystander(m, [], bounds, layer);
    assert m.sent + [] == m.sent;
  }

  lemma PaintedStaysOpaque(mask: Image, red: bv8, green: bv8, blue: bv8, x: int, y: int, px: int, py: int, dst: Color)
    requires FullAlpha(dst)
    ensures FullAlpha(PaintedColor(mask, OpaqueColor(red, green, blue), x, y, px, py, dst))
  {
    hide FullAlpha, OpaqueColor;
    OpaqueColorIsOpaque(red, green, blue);
  }

  method ApplyDraw(s: Surface, x: int, y: int, image: Image, ignoreAlpha: bool)
    requires s.Valid()
    modifies s, s.buffer, s.socket
    ensures s.Valid() && Keeps(old(s.Now()), s.Now(), s.bounds, s.layer)
    ensures Opaque(old(s.Now()), s.bounds) ==> Opaque(s.Now(), s.bounds)
    ensures OthersAsBefore(old(s.socket.sent), s.socket.sent, s.layer)
  {
    hide ClientAt, PostponeOut, IsTrim, DrawnColor, FullAlpha, Keeps, OthersAsBefore, Sound;
    var _ := s.Draw(x, y, image, ignoreAlpha);
    forall c, px, py | FullAlpha(c) ensures FullAlpha(DrawnColor(ignoreAlpha, image, x, y, px, py, c)) {
      DrawnStaysOpaque(ignoreAlpha, image, x, y, px, py, c);
    }
  }

  method ApplyPaint(s: Surface, x: int, y: int, image: Image, red: bv8, green: bv8, blue: bv8)
    requires s.Valid()
    modifies s, s.buffer, s.socket
    ensures s.Valid() && Keeps(old(s.Now()), s.Now(), s.bounds, s.layer)
    ensures Opaque(old(s.Now()), s.bounds) ==> Opaque(s.Now(), s.bounds)
    ensures OthersAsBefore(old(s.socket.sent), s.socket.sent, s.layer)
  {
    hide ClientAt, PostponeOut, IsTrim, PaintedColor, OpaqueColor, FullAlpha, Keeps, OthersAsBefore, Sound;
    var _ := s.Paint(x, y, image, red, green, blue);
    forall c, px, py | FullAlpha(c) ensures FullAlpha(PaintedColor(image, OpaqueColor(red, green, blue), x, y, px, py, c)) {
      PaintedStaysOpaque(image, red, green, blue, x, y, px, py, c);
    }
  }

  method ApplySet(s: Surface, x: int, y: int, w: int, h: int, color: Color)
    requires s.Valid()
    modifies s, s.buffer, s.socket
    ensures s.Valid() && Keeps(old(s.Now()), s.Now(), s.bounds, s.layer)
    ensures FullAlpha(color) && Opaque(old(s.Now()), s.bounds) ==> Opaque(s.Now(), s.bounds)
    ensures OthersAsBefore(old(s.socket.sent), s.socket.sent, s.layer)
  {
    hide ClientAt, SetOut, IsTrim, FullAlpha, Keeps, OthersAsBefore, Sound;
    var _ := s.Set(x, y, w, h, color);
  }

  method ApplyFlush(s: Surface)
    requires s.Valid()
    modifies s, s.socket
    ensures s.Valid() && Keeps(old(s.Now()), s.Now(), s.bounds, s.layer)
    ensures Opaque(old(s.Now()), s.bounds) ==> Opaque(s.Now(), s.bounds)
    ensures OthersAsBefore(old(s.socket.sent), s.socket.sent, s.layer)
  {
    hide ClientAt, FlushOut, FullAlpha, Keeps, OthersAsBefore, Sound, PixelAfter;
    var _ := s.Flush();
  }

  /** The calls on one surface alone. */
  method ApplyAlone(s: Surface, step: Step)
    requires s.Valid() && !step.TransferStep? && !step.CopyStep?
    modifies s, s.buffer, s.socket
    ensures s.Valid() && Keeps(old(s.Now()), s.Now(), s.bounds, s.layer)
    ensures step.Solid() && Opaque(old(s.Now()), s.bounds) ==> Opaque(s.Now(), s.bounds)
    ensures OthersAsBefore(old(s.socket.sent), s.socket.sent, s.layer)
  {
    hide ClientAt, FullAlpha, Keeps, Sound, Opaque, Repeatable;
    ghost var before := s.Now();
    match step
    case DrawStep(_, x, y, image, ignoreAlpha) => ApplyDraw(s, x, y, image, ignoreAlpha);
    case PaintStep(_, x, y, image, red, green, blue) => ApplyPaint(s, x, y, image, red, green, blue);
    case SetStep(_, x, y, w, h, color) => ApplySet(s, x, y, w, h, color);
    case ClipStep(_, x, y, w, h) =>
      s.SetClip(x, y, w, h);
      StandsStill(before, s.bounds, s.layer);
    case ResetClipStep(_) =>
      s.ResetClip();
      StandsStill(before, s.bounds, s.layer);
    case FlushStep(_) => ApplyFlush(s);
  }

  // ------------------------------------------------------------------ two surfaces

  lemma CombinedPixelOpaque(op: TransferFn, source: Picture, sx: int, sy: int, dst: Picture, area: Rect, x: int, y: int)
    requires (x, y) in dst && FullAlpha(dst[(x, y)])
    requires var q := (x - area.x + sx, y - area.y + sy); q in source ==> FullAlpha(source[q])
    ensures var r := Combined(op, source, sx, sy, dst, area); (x, y) in r && FullAlpha(r[(x, y)])
  {
    hide FullAlpha, TransferInt;
    var q := (x - area.x + sx, y - area.y + sy);
    if q in source {
      AlphaOf(op, source[q], dst[(x, y)]);
    }
  }

  lemma CombinedStaysOpaque(op: TransferFn, src: Moment, bs: Rect, sx: int, sy: int, dst: Moment, bd: Rect, area: Rect)
    requires Opaque(src, bs) && Opaque(dst, bd)
    requires forall x, y :: (x, y) in src.picture <==> bs.Has(x, y)
    ensures forall x, y :: bd.Has(x, y) ==>
              var r := Combined(op, src.picture, sx, sy, dst.picture, area); (x, y) in r && FullAlpha(r[(x, y)])
  {
    hide FullAlpha, Combined;
    forall x, y | bd.Has(x, y)
      ensures var r := Combined(op, src.picture, sx, sy, dst.picture, area); (x, y) in r && FullAlpha(r[(x, y)])
    {
      CombinedPixelOpaque(op, src.picture, sx, sy, dst.picture, area, x, y);
    }
  }

  /** On opaque surfaces no result depends on a source pixel that is not opaque. */
  lemma OpaqueSourcesKnown(tell: Tell, src: Moment, bs: Rect, sx: int, sy: int, before: Picture, area: Rect)
    requires Opaque(src, bs) && forall x, y :: (x, y) in src.picture <==> bs.Has(x, y)
    ensures SourcesKnown(tell, src.picture, sx, sy, before, area)
  {
    hide FullAlpha, TransferInt;
  }

  lemma PlainSourcesKnown(op: TransferFn, source: Picture, sx: int, sy: int, before: Picture, area: Rect)
    requires op in {Black, White, Src, Dest, NSrc}
    ensures SourcesKnown(ByTransfer(op), source, sx, sy, before, area) && Repeatable(op)
  {
    hide FullAlpha, TransferInt;
  }

  ghost predicate Linked(s: Surface, d: Surface)
    reads s, d
  {
    s.Valid() && d.Valid() && s.socket == d.socket && (s != d ==> s.layer != d.layer && s.buffer != d.buffer)
  }

  method ApplyTransfer(s: Surface, d: Surface, sx: int, sy: int, w: int, h: int, op: TransferFn, dx: int, dy: int)
    requires Linked(s, d)
    modifies s, d, d.buffer, s.socket
    ensures Linked(s, d)
    ensures Accounted(old(s.Now()), s.Now(), s.bounds, s.layer) && Accounted(old(d.Now()), d.Now(), d.bounds, d.layer)
    ensures old(s.Synced() && d.Synced()) && op in {Black, White, Src, Dest, NSrc} ==> s.Synced() && d.Synced()
    ensures old(Opaque(s.Now(), s.bounds) && Opaque(d.Now(), d.bounds)) ==> Opaque(s.Now(), s.bounds) && Opaque(d.Now(), d.bounds)
    ensures old(s.Synced() && d.Synced() && Opaque(s.Now(), s.bounds) && Opaque(d.Now(), d.bounds)) && (s == d || Repeatable(op)) ==>
              s.Synced() && d.Synced()
    ensures forall l, x, y :: l != s.layer && l != d.layer ==>
              ClientAt(s.socket.sent, l, x, y) == ClientAt(old(s.socket.sent), l, x, y)
  {
    hide ClientAt, AcrossOut, WithinOut, Sound, Accounted, InStep, SourcesKnown, ToldTwice, IsTrim, Combined, FullAlpha, Repeatable;
    hide Meets, Transferred;
    ghost var ms, md := s.Now(), d.Now();
    var area, tx, ty, _ := s.Transfer(sx, sy, w, h, op, d, dx, dy);
    if op in {Black, White, Src, Dest, NSrc} {
      PlainSourcesKnown(op, ms.picture, tx, ty, md.picture, area);
    }
    if Opaque(ms, s.bounds) && Opaque(md, d.bounds) {
      OpaqueSourcesKnown(ByTransfer(op), ms, s.bounds, tx, ty, md.picture, area);
      CombinedStaysOpaque(op, ms, s.bounds, tx, ty, md, d.bounds, area);
    }
  }

  method ApplyCopy(s: Surface, d: Surface, sx: int, sy: int, w: int, h: int, dx: int, dy: int)
    requires Linked(s, d)
    modifies s, d, d.buffer, s.socket
    ensures Linked(s, d)
    ensures Accounted(old(s.Now()), s.Now(), s.bounds, s.layer) && Accounted(old(d.Now()), d.Now(), d.bounds, d.layer)
    ensures old(s.Synced() && d.Synced()) ==> s.Synced() && d.Synced()
    ensures old(Opaque(s.Now(), s.bounds) && Opaque(d.Now(), d.bounds)) ==> Opaque(s.Now(), s.bounds) && Opaque(d.Now(), d.bounds)
    ensures forall l, x, y :: l != s.layer && l != d.layer ==>
              ClientAt(s.socket.sent, l, x, y) == ClientAt(old(s.socket.sent), l, x, y)
  {
    hide ClientAt, AcrossOut, WithinOut, Sound, Accounted, InStep, SourcesKnown, ToldTwice, IsTrim, Combined, FullAlpha, Meets;
    ghost var ms, md := s.Now(), d.Now();
    var area, tx, ty, _ := s.Copy(sx, sy, w, h, d, dx, dy);
    if Opaque(ms, s.bounds) && Opaque(md, d.bounds) {
      CombinedStaysOpaque(Src, ms, s.bounds, tx, ty, md, d.bounds, area);
    }
  }

  /** A copy or transfer from one surface to the other or to itself. */
  method ApplyMove(s: Surface, d: Surface, step: Step)
    requires Linked(s, d) && (step.TransferStep? || step.CopyStep?) && (s == d <==> step.first == step.ontoFirst)
    modifies s, d, d.buffer, s.socket
    ensures Linked(s, d)
    ensures Accounted(old(s.Now()), s.Now(), s.bounds, s.layer) && Accounted(old(d.Now()), d.Now(), d.bounds, d.layer)
    ensures old(s.Synced() && d.Synced()) && step.Plain() ==> s.Synced() && d.Synced()
    ensures old(Opaque(s.Now(), s.bounds) && Opaque(d.Now(), d.bounds)) ==> Opaque(s.Now(), s.bounds) && Opaque(d.Now(), d.bounds)
    ensures old(s.Synced() && d.Synced() && Opaque(s.Now(), s.bounds) && Opaque(d.Now(), d.bounds)) && step.Solid() ==>
              s.Synced() && d.Synced()
    ensures forall l, x, y :: l != s.layer && l != d.layer ==>
              ClientAt(s.socket.sent, l, x, y) == ClientAt(old(s.socket.sent), l, x, y)
  {
    hide ClientAt, Accounted, InStep, Opaque, Repeatable, Sound, FullAlpha;
    match step
    case TransferStep(_, sx, sy, w, h, op, _, dx, dy) => ApplyTransfer(s, d, sx, sy, w, h, op, dx, dy);
    case CopyStep(_, sx, sy, w, h, _, dx, dy) => ApplyCopy(s, d, sx, sy, w, h, dx, dy);
  }

  /** Both surfaces are in step, or both opaque as well. */
  ghost predicate BothSynced(a: Surface, b: Surface)
    requires a.Valid() && b.Valid()
    reads a, b, a.buffer, b.buffer, a.socket, b.socket
  {
    a.Synced() && b.Synced()
  }

  ghost predicate BothOpaque(a: Surface, b: Surface)
    requires a.Valid() && b.Valid()
    reads a, b, a.buffer, b.buffer, a.socket, b.socket
  {
    Opaque(a.Now(), a.bounds) && Opaque(b.Now(), b.bounds)
  }

  lemma SentGrows(m: Moment, n: Moment, bounds: Rect, layer: int)
    requires Accounted(m, n, bounds, layer)
    ensures m.sent <= n.sent
  {
  }

  /** The surface a call does not concern. */
  lemma Uninvolved(s: Surface, m: Moment)
    requires s.Valid() && s.Now() == m.(sent := s.socket.sent) && m.sent <= s.socket.sent
    requires forall x, y :: ClientAt(s.socket.sent, s.layer, x, y) == ClientAt(m.sent, s.layer, x, y)
    ensures Accounted(m, s.Now(), s.bounds, s.layer)
    ensures InStep(m, s.bounds, s.layer) ==> s.Synced()
    ensures Opaque(m, s.bounds) ==> Opaque(s.Now(), s.bounds)
  {
    hide ClientAt, Accounted, InStep, Sound, FullAlpha;
    OthersStep(m, s.Now(), s.bounds, s.layer);
  }

  /** What one step keeps on both surfaces. */
  method Apply(a: Surface, b: Surface, step: Step)
    requires Paired(a, b)
    modifies a, b, a.buffer, b.buffer, a.socket
    ensures Paired(a, b)
    ensures Accounted(old(a.Now()), a.Now(), a.bounds, a.layer) && Accounted(old(b.Now()), b.Now(), b.bounds, b.layer)
    ensures old(BothSynced(a, b)) && step.Plain() ==> BothSynced(a, b)
    ensures old(BothSynced(a, b) && BothOpaque(a, b)) && step.Solid() ==> BothSynced(a, b) && BothOpaque(a, b)
  {
    hide ClientAt, Accounted, InStep, Opaque, Sound, FullAlpha, Repeatable;
    ghost var ma, mb := a.Now(), b.Now();
    if step.TransferStep? || step.CopyStep? {
      var s, d := if step.first then a else b, if step.ontoFirst then a else b;
      ApplyMove(s, d, step);
      SentGrows(if s == a then ma else mb, s.Now(), s.bounds, s.layer);
      if s == d && s == a {
        Uninvolved(b, mb);
      } else if s == d {
        Uninvolved(a, ma);
      }
    } else if step.first {
      ApplyAlone(a, step);
      SentGrows(ma, a.Now(), a.bounds, a.layer);
      Uninvolved(b, mb);
    } else {
      ApplyAlone(b, step);
      SentGrows(mb, b.Now(), b.bounds, b.layer);
      Uninvolved(a, ma);
    }
  }

  /** The moments of a run account for each other, from any one to any later one. */
  ghost predicate AllAccounted(moments: seq<Moment>, bounds: Rect, layer: int) {
    forall i, j :: 0 <= i <= j < |moments| ==> Accounted(moments[i], moments[j], bounds, layer)
  }

  lemma SelfAccounted(m: Moment, bounds: Rect, layer: int)
    requires Whole(m, bounds)
    ensures Accounted(m, m, bounds, layer)
  {
    Bystander(m, [], bounds, layer);
    assert m.sent + [] == m.sent;
  }

  lemma OneMoreMoment(moments: seq<Moment>, m: Moment, bounds: Rect, layer: int)
    requires moments != [] && AllAccounted(moments, bounds, layer)
    requires Accounted(moments[|moments| - 1], m, bounds, layer)
    ensures AllAccounted(moments + [m], bounds, layer)
  {
    var longer := moments + [m];
    SelfAccounted(m, bounds, layer);
    hide Accounted;
    forall i, j | 0 <= i <= j < |longer| ensures Accounted(longer[i], longer[j], bounds, layer) {
      if j == |moments| && i < j {
        assert Accounted(moments[i], moments[|moments| - 1], bounds, layer);
        AccountedTrans(moments[i], moments[|moments| - 1], m, bounds, layer);
      }
    }
  }

  lemma FirstMoment(s: Surface)
    requires s.Valid()
    ensures AllAccounted([s.Now()], s.bounds, s.layer)
  {
    SelfAccounted(s.Now(), s.bounds, s.layer);
  }

  /** Every run of calls on two surfaces. Between any two moments of it, every pixel
      that changed or was waiting is waiting at the later one or was covered by an
      instruction sent since; whatever is thought worth combining, in whatever
      formats images are sent, and whatever is copied or transferred. Opaque pixels
      stay in step over every run without the functions that need both pixels, and
      opaque surfaces over every run whose transfers between them are repeatable. */
  method Run(a: Surface, b: Surface, steps: seq<Step>) returns (ghost as': seq<Moment>, ghost bs': seq<Moment>)
    requires Paired(a, b)
    modifies a, b, a.buffer, b.buffer, a.socket
    ensures Paired(a, b) && |as'| == |bs'| == |steps| + 1
    ensures as'[0] == old(a.Now()) && as'[|steps|] == a.Now() && bs'[0] == old(b.Now()) && bs'[|steps|] == b.Now()
    ensures AllAccounted(as', a.bounds, a.layer) && AllAccounted(bs', b.bounds, b.layer)
    ensures old(BothSynced(a, b)) && (forall k :: 0 <= k < |steps| ==> steps[k].Plain()) ==> BothSynced(a, b)
    ensures old(BothSynced(a, b) && BothOpaque(a, b)) && (forall k :: 0 <= k < |steps| ==> steps[k].Solid()) ==>
              BothSynced(a, b) && BothOpaque(a, b)
  {
    hide Accounted, InStep, Opaque, Sound, AllAccounted, BothSynced, BothOpaque, Step.Plain, Step.Solid;
    hide At;
    as', bs' := [a.Now()], [b.Now()];
    FirstMoment(a);
    FirstMoment(b);
    for i := 0 to |steps|
      invariant Paired(a, b) && |as'| == |bs'| == i + 1
      invariant as'[0] == old(a.Now()) && as'[i] == a.Now() && bs'[0] == old(b.Now()) && bs'[i] == b.Now()
      invariant AllAccounted(as', a.bounds, a.layer) && AllAccounted(bs', b.bounds, b.layer)
      invariant old(BothSynced(a, b)) && (forall k :: 0 <= k < i ==> steps[k].Plain()) ==> BothSynced(a, b)
      invariant old(BothSynced(a, b) && BothOpaque(a, b)) && (forall k :: 0 <= k < i ==> steps[k].Solid()) ==>
                  BothSynced(a, b) && BothOpaque(a, b)
    {
      Apply(a, b, steps[i]);
      OneMoreMoment(as', a.Now(), a.bounds, a.layer);
      OneMoreMoment(bs', b.Now(), b.bounds, b.layer);
      as', bs' := as' + [a.Now()], bs' + [b.Now()];
    }
  }

  /** Once both surfaces are flushed, the client shows every opaque pixel of both. */
  method FlushBoth(a: Surface, b: Surface)
    requires Paired(a, b) && BothSynced(a, b)
    modifies a, b, a.socket
    ensures Paired(a, b)
    ensures forall x, y :: a.bounds.Has(x, y) && FullAlpha(a.buffer[y, x]) ==>
              ClientAt(a.socket.sent, a.layer, x, y) == a.buffer[y, x]
    ensures forall x, y :: b.bounds.Has(x, y) && FullAlpha(b.buffer[y, x]) ==>
              ClientAt(b.socket.sent, b.layer, x, y) == b.buffer[y, x]
  {
    hide ClientAt, Sound, FullAlpha, FlushOut, PixelAfter, Accounted;
    ghost var ma, mb := a.Now(), b.Now();
    var _ := a.Flush();
    SentGrows(ma, a.Now(), a.bounds, a.layer);
    Uninvolved(b, mb);
    NothingWaits(a.Tracked());
    var _ := b.Flush();
    NothingWaits(b.Tracked());
  }
}
