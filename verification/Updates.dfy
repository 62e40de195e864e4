/** The update tracking of src/common/surface.c, as functions on what a surface
    remembers of changes it has not sent: one dirty rectangle and a bounded queue
    of rectangles, and the flush that sorts, merges, requeues and sends them. */
module Updates {
  import opened Basics
  import opened Rects
  import opened Bits
  import opened Operators
  import opened Pixels

  const QUEUE_SIZE := 256
  const JPEG_BLOCK_SIZE := 16
  const WEBP_BLOCK_SIZE := 8

  type Picture = imap<(int, int), Color>

  datatype QueuedRect = QueuedRect(rect: Rect, flushed: bool)

  /** The format the encoders would like for an image. */
  datatype Encoding = Png | Jpeg | Webp

  /** What a surface remembers: whether the client has it, the dirty rectangle, the
      queue, and the formats its next images will be wanted in. The program finds
      those from the history of updates; here they may be any. */
  datatype Track = Track(realized: bool, dirty: bool, dirtyRect: Rect, queue: seq<QueuedRect>, formats: seq<Encoding>)

  /** What never changes: the area of a surface, and the answer whether an update
      is worth combining with the dirty rectangle, which may be any function of
      the dirty rectangle, the update and whether that carries no image data. */
  datatype Setting = Setting(bounds: Rect, worth: (Rect, Rect, bool) -> bool)

  // ---------------------------------------------------------------- the queue

  ghost predicate Queued(queue: seq<QueuedRect>, x: int, y: int) {
    exists k :: 0 <= k < |queue| && !queue[k].flushed && queue[k].rect.Has(x, y)
  }

  lemma QueuedAppend(queue: seq<QueuedRect>, q: QueuedRect, x: int, y: int)
    ensures Queued(queue + [q], x, y) <==> Queued(queue, x, y) || (!q.flushed && q.rect.Has(x, y))
  {
    var longer := queue + [q];
    assert longer[|queue|] == q;
    if Queued(queue, x, y) {
      var k :| 0 <= k < |queue| && !queue[k].flushed && queue[k].rect.Has(x, y);
      assert longer[k] == queue[k];
    }
  }

  lemma QueuedUpdate(queue: seq<QueuedRect>, j: nat, q: QueuedRect, x: int, y: int)
    requires j < |queue| && Queued(queue, x, y)
    ensures Queued(queue[j := q], x, y) || queue[j].rect.Has(x, y)
    ensures !q.flushed && q.rect.Has(x, y) ==> Queued(queue[j := q], x, y)
  {
    var k :| 0 <= k < |queue| && !queue[k].flushed && queue[k].rect.Has(x, y);
    assert k != j ==> queue[j := q][k] == queue[k];
    assert queue[j := q][j] == q;
  }

  lemma NoneQueued(queue: seq<QueuedRect>, x: int, y: int)
    requires forall k :: 0 <= k < |queue| ==> queue[k].flushed
    ensures !Queued(queue, x, y)
  {
  }

  /** __guac_common_surface_bitmap_rect_compare, as "may come before". */
  predicate NotAfter(a: Rect, b: Rect) {
    if a.y != b.y then a.y < b.y
    else if a.x != b.x then a.x < b.x
    else if a.width != b.width then a.width > b.width
    else a.height <= b.height
  }

  predicate Sorted(queue: seq<QueuedRect>) {
    forall i, j :: 0 <= i < j < |queue| ==> NotAfter(queue[i].rect, queue[j].rect)
  }

  lemma NotAfterIsTotalOrder(a: Rect, b: Rect, c: Rect)
    ensures NotAfter(a, b) || NotAfter(b, a)
    ensures NotAfter(a, b) && NotAfter(b, c) ==> NotAfter(a, c)
  {
  }

  function Insert(q: QueuedRect, queue: seq<QueuedRect>): (r: seq<QueuedRect>)
    ensures multiset(r) == multiset(queue) + multiset{q}
  {
    if queue == [] then [q]
    else if NotAfter(q.rect, queue[0].rect) then [q] + queue
    else
      assert queue == [queue[0]] + queue[1..];
      [queue[0]] + Insert(q, queue[1..])
  }

  lemma {:induction false} InsertKeepsSorted(q: QueuedRect, queue: seq<QueuedRect>)
    requires Sorted(queue)
    ensures Sorted(Insert(q, queue))
  {
    hide NotAfter;
    if queue == [] {
    } else if NotAfter(q.rect, queue[0].rect) {
      forall k | 0 <= k < |queue| ensures NotAfter(q.rect, queue[k].rect) {
        NotAfterIsTotalOrder(q.rect, queue[0].rect, queue[k].rect);
      }
    } else {
      var rest := Insert(q, queue[1..]);
      InsertKeepsSorted(q, queue[1..]);
      forall k | 0 <= k < |rest| ensures NotAfter(queue[0].rect, rest[k].rect) {
        assert rest[k] in multiset(rest);
        NotAfterIsTotalOrder(q.rect, queue[0].rect, q.rect);
      }
    }
  }

  /** qsort() with the comparator above. Rectangles it cannot tell apart are
      equal, so the result does not depend on the sorting algorithm. */
  function Sort(queue: seq<QueuedRect>): (r: seq<QueuedRect>)
    ensures Sorted(r) && multiset(r) == multiset(queue) && |r| == |queue|
  {
    if queue == [] then []
    else
      assert queue == [queue[0]] + queue[1..];
      InsertKeepsSorted(queue[0], Sort(queue[1..]));
      var r := Insert(queue[0], Sort(queue[1..]));
      assert |multiset(r)| == |multiset(queue)|;
      r
  }

  lemma SortKeepsQueued(queue: seq<QueuedRect>, x: int, y: int)
    ensures Queued(Sort(queue), x, y) <==> Queued(queue, x, y)
  {
    var sorted := Sort(queue);
    assert forall q :: q in queue <==> q in multiset(queue);
    assert forall q :: q in sorted <==> q in multiset(sorted);
    if Queued(queue, x, y) {
      var k :| 0 <= k < |queue| && !queue[k].flushed && queue[k].rect.Has(x, y);
      assert queue[k] in sorted;
    }
    if Queued(sorted, x, y) {
      var k :| 0 <= k < |sorted| && !sorted[k].flushed && sorted[k].rect.Has(x, y);
      assert sorted[k] in queue;
    }
  }

  // ------------------------------------------------------------- marking dirty

  /** The pixel still waits to be sent. */
  ghost predicate Waits(t: Track, x: int, y: int) {
    (t.dirty && t.dirtyRect.Has(x, y)) || Queued(t.queue, x, y)
  }

  /** What holds between calls. */
  ghost predicate Sound(t: Track) {
    && |t.queue| < QUEUE_SIZE
    && (forall k :: 0 <= k < |t.queue| ==> !t.queue[k].flushed)
    && (t.dirty ==> !t.dirtyRect.Empty())
  }

  /** __guac_common_should_combine, for any estimate of what is worth it. */
  predicate ShouldCombine(s: Setting, t: Track, rect: Rect, rectOnly: bool) {
    !t.realized || (t.dirty && s.worth(t.dirtyRect, rect, rectOnly))
  }

  /** __guac_common_mark_dirty. */
  function Marked(t: Track, rect: Rect): Track {
    if rect.Empty() then t
    else t.(dirty := true, dirtyRect := if t.dirty then Hull(t.dirtyRect, rect) else rect)
  }

  /** __guac_common_surface_flush_to_queue. */
  function ToQueue(t: Track): Track {
    if t.dirty then t.(dirty := false, queue := t.queue + [QueuedRect(t.dirtyRect, false)]) else t
  }

  lemma MarkedWaits(t: Track, rect: Rect, x: int, y: int)
    requires rect.Has(x, y) || Waits(t, x, y)
    ensures Waits(Marked(t, rect), x, y)
  {
    hide Queued;
  }

  /** The dirty rectangle is the least that holds all updates. */
  lemma MarkedIsLeast(t: Track, rect: Rect, other: Rect)
    requires !rect.Empty()
    ensures Marked(t, rect).dirty
    ensures Marked(t, rect).dirtyRect.Within(other) <==> rect.Within(other) && (t.dirty ==> t.dirtyRect.Within(other))
  {
    HullIsLeast(t.dirtyRect, rect, other);
  }

  lemma ToQueueWaits(t: Track, x: int, y: int)
    ensures Waits(ToQueue(t), x, y) <==> Waits(t, x, y)
  {
    hide Queued;
    QueuedAppend(t.queue, QueuedRect(t.dirtyRect, false), x, y);
  }

  // ------------------------------------------------------------------- merging

  datatype Gathering = Gathering(track: Track, combined: nat)

  /** One queued rectangle as a candidate for the dirty rectangle. */
  function Consider(s: Setting, t: Track, j: nat): (g: Gathering)
    requires j < |t.queue|
    ensures |g.track.queue| == |t.queue|
  {
    var rect := Meet(t.queue[j].rect, s.bounds);
    if t.queue[j].flushed then Gathering(t, 0)
    else if rect.Empty() then Gathering(t.(queue := t.queue[j := QueuedRect(rect, true)]), 0)
    else if ShouldCombine(s, t, rect, false) || !t.dirty then
      Gathering(Marked(t, rect).(queue := t.queue[j := QueuedRect(rect, true)]), 1)
    else Gathering(t.(queue := t.queue[j := QueuedRect(rect, false)]), 0)
  }

  /** The inner loop of __guac_common_surface_flush, from position j on. */
  function Gather(s: Setting, t: Track, j: nat): (g: Gathering)
    requires j <= |t.queue|
    ensures |g.track.queue| == |t.queue|
    decreases |t.queue| - j
  {
    if j == |t.queue| then Gathering(t, 0)
    else
      var one := Consider(s, t, j);
      var rest := Gather(s, one.track, j + 1);
      Gathering(rest.track, one.combined + rest.combined)
  }

  /** The dirty rectangle, if there is one, lies in the surface. */
  ghost predicate Fitting(s: Setting, t: Track) {
    t.dirty ==> !t.dirtyRect.Empty() && t.dirtyRect.Within(s.bounds)
  }

  lemma ConsiderKeeps(s: Setting, t: Track, j: nat, x: int, y: int)
    requires j < |t.queue| && Fitting(s, t)
    ensures var u := Consider(s, t, j).track;
            && Fitting(s, u) && u.realized == t.realized && u.formats == t.formats && (t.dirty ==> u.dirty)
            && (s.bounds.Has(x, y) && Waits(t, x, y) ==> Waits(u, x, y))
            && (forall k :: 0 <= k < |t.queue| && t.queue[k].flushed ==> u.queue[k].flushed)
            && (!t.dirty ==> u.queue[j].flushed)
  {
    hide Queued;
    MeetIsIntersection(t.queue[j].rect, s.bounds, x, y);
    var u := Consider(s, t, j).track;
    if Queued(t.queue, x, y) {
      QueuedUpdate(t.queue, j, u.queue[j], x, y);
    }
  }

  /** Merging loses no waiting pixel, whatever is thought worth combining. */
  lemma {:induction false} GatherKeeps(s: Setting, t: Track, j: nat, x: int, y: int)
    requires j <= |t.queue| && Fitting(s, t)
    ensures var u := Gather(s, t, j).track;
            && Fitting(s, u) && u.realized == t.realized && u.formats == t.formats && (t.dirty ==> u.dirty)
            && (s.bounds.Has(x, y) && Waits(t, x, y) ==> Waits(u, x, y))
            && (forall k :: 0 <= k < |t.queue| && t.queue[k].flushed ==> u.queue[k].flushed)
            && (!t.dirty && j < |t.queue| ==> u.queue[j].flushed)
    decreases |t.queue| - j
  {
    hide Waits, Consider, Fitting;
    if j < |t.queue| {
      ConsiderKeeps(s, t, j, x, y);
      GatherKeeps(s, Consider(s, t, j).track, j + 1, x, y);
    }
  }

  // ------------------------------------------------------------------- sending

  /** An image as it is sent: its area, whether it carries no alpha channel, and
      whether the client is told to clear the area first. */
  datatype Sending = Sending(rect: Rect, rgb: bool, clear: bool)

  ghost predicate OpaqueIn(picture: Picture, rect: Rect) {
    forall x, y :: rect.Has(x, y) && (x, y) in picture ==> FullAlpha(picture[(x, y)])
  }

  function NextFormat(t: Track): Encoding { if t.formats == [] then Png else t.formats[0] }

  /** The image made from the dirty rectangle: WebP if that is wanted, JPEG if that
      is wanted and the rectangle is opaque, else PNG. */
  ghost function SendingOf(s: Setting, picture: Picture, t: Track): Sending {
    var full := OpaqueIn(picture, t.dirtyRect);
    match NextFormat(t)
    case Webp => Sending(Grown(WEBP_BLOCK_SIZE, t.dirtyRect, s.bounds), full, false)
    case Jpeg => if full then Sending(Grown(JPEG_BLOCK_SIZE, t.dirtyRect, s.bounds), true, false)
                 else Sending(t.dirtyRect, false, true)
    case Png => Sending(t.dirtyRect, full, !full)
  }

  /** What is remembered after sending. The dirty rectangle keeps its growth. */
  ghost function Sent(s: Setting, picture: Picture, t: Track): Track {
    t.(realized := true, dirty := false, dirtyRect := SendingOf(s, picture, t).rect,
       formats := if t.formats == [] then [] else t.formats[1..])
  }

  /** An image goes without its alpha channel exactly if the dirty rectangle is opaque; it
      is that rectangle as PNG, and otherwise grown to the blocks of its format. */
  lemma SendingIsGrown(s: Setting, picture: Picture, t: Track)
    requires t.dirty && Fitting(s, t)
    ensures var send, full, d := SendingOf(s, picture, t), OpaqueIn(picture, t.dirtyRect), t.dirtyRect;
            && (send.rgb <==> full)
            && (NextFormat(t) == Png || (NextFormat(t) == Jpeg && !full) ==> send.rect == d)
            && (NextFormat(t) == Webp ==>
                 && send.rect.width == Min(GridSize(8, d.width), s.bounds.width)
                 && send.rect.height == Min(GridSize(8, d.height), s.bounds.height))
            && (NextFormat(t) == Jpeg && full ==>
                 && send.rect.width == Min(GridSize(16, d.width), s.bounds.width)
                 && send.rect.height == Min(GridSize(16, d.height), s.bounds.height))
  {
    hide OpaqueIn, Grown, GridSize;
    GrownContains(WEBP_BLOCK_SIZE, t.dirtyRect, s.bounds);
    GrownContains(JPEG_BLOCK_SIZE, t.dirtyRect, s.bounds);
  }

  lemma SendingDepends(s: Setting, picture: Picture, t: Track, u: Track)
    requires t.dirtyRect == u.dirtyRect && t.formats == u.formats
    ensures SendingOf(s, picture, t) == SendingOf(s, picture, u)
  {
  }

  lemma SentKeepsQueue(s: Setting, picture: Picture, t: Track)
    ensures Sent(s, picture, t).queue == t.queue
  {
  }

  lemma SendingContains(s: Setting, picture: Picture, t: Track)
    requires t.dirty && Fitting(s, t)
    ensures t.dirtyRect.Within(SendingOf(s, picture, t).rect) && SendingOf(s, picture, t).rect.Within(s.bounds)
  {
    hide OpaqueIn, Grown, GridSize;
    GrownContains(WEBP_BLOCK_SIZE, t.dirtyRect, s.bounds);
    GrownContains(JPEG_BLOCK_SIZE, t.dirtyRect, s.bounds);
  }

  datatype Flushed = Flushed(track: Track, sends: seq<Sending>)

  ghost predicate Covered(sends: seq<Sending>, x: int, y: int) {
    exists k :: 0 <= k < |sends| && sends[k].rect.Has(x, y)
  }

  lemma CoveredCons(send: Sending, sends: seq<Sending>, x: int, y: int)
    ensures Covered([send] + sends, x, y) <==> send.rect.Has(x, y) || Covered(sends, x, y)
  {
    var all := [send] + sends;
    assert all[0] == send;
    if Covered(sends, x, y) {
      var k :| 0 <= k < |sends| && sends[k].rect.Has(x, y);
      assert all[k + 1] == sends[k];
    }
    if Covered(all, x, y) {
      var k :| 0 <= k < |all| && all[k].rect.Has(x, y);
      assert k > 0 ==> sends[k - 1] == all[k];
    }
  }

  /** The outer loop of __guac_common_surface_flush, from position i on. Merged
      rectangles are queued again while the loop is within the queue's original
      length or has merged something, as long as there is room. */
  ghost function FlushLoop(s: Setting, picture: Picture, t: Track, i: nat, original: nat): Flushed
    requires |t.queue| <= QUEUE_SIZE
    decreases QUEUE_SIZE - i
  {
    if i >= |t.queue| then Flushed(t, [])
    else if t.queue[i].flushed then FlushLoop(s, picture, t, i + 1, original)
    else
      var g := Gather(s, t, i);
      if (g.combined > 1 || i < original) && |t.queue| < QUEUE_SIZE then
        FlushLoop(s, picture, ToQueue(g.track), i + 1, original)
      else if g.track.dirty then
        var rest := FlushLoop(s, picture, Sent(s, picture, g.track), i + 1, original);
        Flushed(rest.track, [SendingOf(s, picture, g.track)] + rest.sends)
      else FlushLoop(s, picture, g.track, i + 1, original)
  }

  /** Going on at round `i` of `t`, with these images sent before, is the flush loop
      from round `i0` of `t0`. */
  ghost predicate Resumes(s: Setting, picture: Picture, original: nat, t0: Track, i0: nat, sends: seq<Sending>, t: Track, i: nat) {
    && |t0.queue| <= QUEUE_SIZE && |t.queue| <= QUEUE_SIZE
    && var rest := FlushLoop(s, picture, t, i, original);
       FlushLoop(s, picture, t0, i0, original) == Flushed(rest.track, sends + rest.sends)
  }

  lemma ResumesAtOnce(s: Setting, picture: Picture, original: nat, t: Track, i: nat)
    requires |t.queue| <= QUEUE_SIZE
    ensures Resumes(s, picture, original, t, i, [], t, i)
  {
    hide FlushLoop;
    var rest := FlushLoop(s, picture, t, i, original);
    assert [] + rest.sends == rest.sends;
  }

  lemma ResumesOn(s: Setting, picture: Picture, original: nat, t0: Track, i0: nat, sends: seq<Sending>, t: Track, i: nat,
                  more: seq<Sending>, t': Track, i': nat)
    requires Resumes(s, picture, original, t0, i0, sends, t, i) && Resumes(s, picture, original, t, i, more, t', i')
    ensures Resumes(s, picture, original, t0, i0, sends + more, t', i')
  {
    hide FlushLoop;
    var rest := FlushLoop(s, picture, t', i', original);
    assert sends + (more + rest.sends) == sends + more + rest.sends;
  }

  lemma ResumesToEnd(s: Setting, picture: Picture, original: nat, t0: Track, i0: nat, sends: seq<Sending>, t: Track, i: nat)
    requires Resumes(s, picture, original, t0, i0, sends, t, i) && i >= |t.queue|
    ensures |t0.queue| <= QUEUE_SIZE && FlushLoop(s, picture, t0, i0, original) == Flushed(t, sends)
  {
    assert sends + [] == sends;
  }

  /** Between two rounds of the loop nothing is dirty, and all before is flushed. */
  ghost predicate AtRound(t: Track, i: nat) {
    |t.queue| <= QUEUE_SIZE && !t.dirty && forall k :: 0 <= k < i && k < |t.queue| ==> t.queue[k].flushed
  }

  lemma StartsRounds(t: Track)
    requires |t.queue| <= QUEUE_SIZE && !t.dirty
    ensures AtRound(t, 0)
  {
  }

  lemma NothingCovered(x: int, y: int)
    ensures !Covered([], x, y)
  {
  }

  /** Every waiting pixel lies in an image sent, every image in the surface, and
      nothing is left dirty. */
  lemma {:induction false} FlushLoopCovers(s: Setting, picture: Picture, t: Track, i: nat, original: nat, x: int, y: int)
    requires AtRound(t, i)
    ensures var f := FlushLoop(s, picture, t, i, original);
            && !f.track.dirty && (t.realized ==> f.track.realized)
            && (s.bounds.Has(x, y) && Waits(t, x, y) ==> Covered(f.sends, x, y))
            && (Covered(f.sends, x, y) ==> s.bounds.Has(x, y))
    decreases QUEUE_SIZE - i
  {
    hide Queued, Covered, SendingOf, Gather;
    if i >= |t.queue| {
      NoneQueued(t.queue, x, y);
      NothingCovered(x, y);
    } else if t.queue[i].flushed {
      FlushLoopCovers(s, picture, t, i + 1, original, x, y);
    } else {
      GatherKeeps(s, t, i, x, y);
      var g := Gather(s, t, i);
      ToQueueWaits(g.track, x, y);
      if (g.combined > 1 || i < original) && |t.queue| < QUEUE_SIZE {
        FlushLoopCovers(s, picture, ToQueue(g.track), i + 1, original, x, y);
      } else if g.track.dirty {
        var send, after := SendingOf(s, picture, g.track), Sent(s, picture, g.track);
        SendingContains(s, picture, g.track);
        FlushLoopCovers(s, picture, after, i + 1, original, x, y);
        CoveredCons(send, FlushLoop(s, picture, after, i + 1, original).sends, x, y);
      } else {
        FlushLoopCovers(s, picture, g.track, i + 1, original, x, y);
      }
    }
  }

  /** Without WebP every image either has no alpha channel or clears its area first; and
      with PNG alone an image without alpha channel has opaque pixels only. */
  ghost predicate Faithful(send: Sending, picture: Picture, pngOnly: bool) {
    (send.rgb || send.clear) && (pngOnly && send.rgb ==> OpaqueIn(picture, send.rect))
  }

  ghost predicate AllFaithful(sends: seq<Sending>, picture: Picture, pngOnly: bool) {
    forall k :: 0 <= k < |sends| ==> Faithful(sends[k], picture, pngOnly)
  }

  ghost predicate Wanted(formats: seq<Encoding>, pngOnly: bool) {
    forall k :: 0 <= k < |formats| ==> formats[k] != Webp && (pngOnly ==> formats[k] == Png)
  }

  lemma WantedFormats(formats: seq<Encoding>)
    ensures (forall f :: f in formats ==> f == Png) ==> Wanted(formats, true)
    ensures Webp !in formats ==> Wanted(formats, false)
  {
    assert forall k :: 0 <= k < |formats| ==> formats[k] in formats;
  }

  lemma SendingIsFaithful(s: Setting, picture: Picture, t: Track, pngOnly: bool)
    requires Wanted(t.formats, pngOnly)
    ensures Faithful(SendingOf(s, picture, t), picture, pngOnly) && Wanted(Sent(s, picture, t).formats, pngOnly)
  {
    hide OpaqueIn, Grown;
  }

  lemma {:induction false} GatherKeepsFormats(s: Setting, t: Track, j: nat)
    requires j <= |t.queue|
    ensures Gather(s, t, j).track.formats == t.formats
    decreases |t.queue| - j
  {
    if j < |t.queue| {
      GatherKeepsFormats(s, Consider(s, t, j).track, j + 1);
    }
  }

  lemma NoneFaithful(picture: Picture, pngOnly: bool)
    ensures AllFaithful([], picture, pngOnly)
  {
  }

  lemma OneMoreFaithful(send: Sending, sends: seq<Sending>, picture: Picture, pngOnly: bool)
    requires Faithful(send, picture, pngOnly) && AllFaithful(sends, picture, pngOnly)
    ensures AllFaithful([send] + sends, picture, pngOnly)
  {
    hide Faithful;
  }

  lemma {:induction false} FlushLoopIsFaithful(s: Setting, picture: Picture, t: Track, i: nat, original: nat, pngOnly: bool)
    requires |t.queue| <= QUEUE_SIZE && Wanted(t.formats, pngOnly)
    ensures var sends := FlushLoop(s, picture, t, i, original).sends;
            AllFaithful(sends, picture, pngOnly)
    decreases QUEUE_SIZE - i
  {
    hide AllFaithful, Wanted, SendingOf, Sent, Gather;
    NoneFaithful(picture, pngOnly);
    if i >= |t.queue| {
    } else if t.queue[i].flushed {
      FlushLoopIsFaithful(s, picture, t, i + 1, original, pngOnly);
    } else {
      var g := Gather(s, t, i);
      GatherKeepsFormats(s, t, i);
      if (g.combined > 1 || i < original) && |t.queue| < QUEUE_SIZE {
        FlushLoopIsFaithful(s, picture, ToQueue(g.track), i + 1, original, pngOnly);
      } else if g.track.dirty {
        SendingIsFaithful(s, picture, g.track, pngOnly);
        SentKeepsQueue(s, picture, g.track);
        FlushLoopIsFaithful(s, picture, Sent(s, picture, g.track), i + 1, original, pngOnly);
        OneMoreFaithful(SendingOf(s, picture, g.track), FlushLoop(s, picture, Sent(s, picture, g.track), i + 1, original).sends,
                        picture, pngOnly);
      } else {
        FlushLoopIsFaithful(s, picture, g.track, i + 1, original, pngOnly);
      }
    }
  }

  /** __guac_common_surface_flush: what is remembered after it, and the images it
      sends, as a function of what was remembered, the pixels and the formats
      wanted. */
  ghost function Flush(s: Setting, picture: Picture, t: Track): Flushed
    requires |t.queue| < QUEUE_SIZE
  {
    var q := ToQueue(t);
    var f := FlushLoop(s, picture, q.(queue := Sort(q.queue)), 0, |q.queue|);
    Flushed(f.track.(queue := []), f.sends)
  }

  /** A flush leaves nothing to send; the images it sends cover every waiting pixel
      of the surface, and lie in the surface. */
  lemma FlushCovers(s: Setting, picture: Picture, t: Track, x: int, y: int)
    requires |t.queue| < QUEUE_SIZE
    ensures var f := Flush(s, picture, t);
            && !f.track.dirty && f.track.queue == [] && Sound(f.track) && (t.realized ==> f.track.realized)
            && (s.bounds.Has(x, y) && Waits(t, x, y) ==> Covered(f.sends, x, y))
            && (Covered(f.sends, x, y) ==> s.bounds.Has(x, y))
  {
    hide Queued, Covered, FlushLoop, Sort;
    var q := ToQueue(t);
    ToQueueWaits(t, x, y);
    SortKeepsQueued(q.queue, x, y);
    FlushLoopCovers(s, picture, q.(queue := Sort(q.queue)), 0, |q.queue|, x, y);
  }

  lemma FlushIsFaithful(s: Setting, picture: Picture, t: Track, pngOnly: bool)
    requires |t.queue| < QUEUE_SIZE && Wanted(t.formats, pngOnly)
    ensures var sends := Flush(s, picture, t).sends;
            AllFaithful(sends, picture, pngOnly)
  {
    hide AllFaithful, Wanted, FlushLoop, Sort;
    var q := ToQueue(t);
    FlushLoopIsFaithful(s, picture, q.(queue := Sort(q.queue)), 0, |q.queue|, pngOnly);
  }

  lemma GatherLast(s: Setting, t: Track, j: nat)
    requires |t.queue| == j + 1 && !t.dirty && !t.queue[j].flushed
    requires !t.queue[j].rect.Empty() && t.queue[j].rect.Within(s.bounds)
    ensures Gather(s, t, j) ==
            Gathering(t.(dirty := true, dirtyRect := t.queue[j].rect, queue := t.queue[j := QueuedRect(t.queue[j].rect, true)]), 1)
  {
    var one := Consider(s, t, j);
    assert Meet(t.queue[j].rect, s.bounds) == t.queue[j].rect;
    assert Gather(s, one.track, j + 1) == Gathering(one.track, 0);
  }

  /** One dirty rectangle with nothing queued is sent as one image, after having been
      queued twice. */
  lemma OneImage(s: Setting, picture: Picture, t: Track)
    requires t.dirty && t.queue == [] && !t.dirtyRect.Empty() && t.dirtyRect.Within(s.bounds)
    ensures Flush(s, picture, t).sends == [SendingOf(s, picture, t)]
  {
    hide SendingOf, Gather;
    var waiting, done := QueuedRect(t.dirtyRect, false), QueuedRect(t.dirtyRect, true);
    var first := t.(dirty := false, queue := [waiting]);
    var second := t.(dirty := false, queue := [done, waiting]);
    var last := t.(queue := [done, done]);
    assert Sort([waiting]) == [waiting];
    GatherLast(s, first, 0);
    assert [waiting][0 := done] == [done];
    GatherLast(s, second, 1);
    assert [done, waiting][1 := done] == [done, done];
    assert SendingOf(s, picture, last) == SendingOf(s, picture, t) by { SendingDepends(s, picture, last, t); }
    assert FlushLoop(s, picture, Sent(s, picture, last), 2, 1).sends == [];
    assert FlushLoop(s, picture, second, 1, 1).sends == [SendingOf(s, picture, t)];
    assert ToQueue(t.(queue := [done])) == second by { assert [done] + [waiting] == [done, waiting]; }
    assert FlushLoop(s, picture, first, 0, 1) == FlushLoop(s, picture, second, 1, 1);
    assert ToQueue(t) == first by { assert [] + [waiting] == [waiting]; }
  }

  /** With nothing waiting, a flush does nothing. */
  lemma FlushIdle(s: Setting, picture: Picture, t: Track)
    requires !t.dirty && t.queue == []
    ensures Flush(s, picture, t) == Flushed(t, [])
  {
  }

  // ----------------------------------------------------------------- deferring

  /** __guac_common_surface_flush_deferred. */
  ghost function Deferred(s: Setting, picture: Picture, t: Track): Flushed
    requires |t.queue| < QUEUE_SIZE
  {
    if !t.dirty then Flushed(t, [])
    else if |t.queue| == QUEUE_SIZE - 1 then
      var f := Flush(s, picture, t);
      Flushed(ToQueue(f.track), f.sends)
    else Flushed(ToQueue(t), [])
  }

  /** The end of draw, paint and non-opaque set: an update made locally joins what
      waits to be sent. */
  ghost function Postpone(s: Setting, picture: Picture, t: Track, rect: Rect): Flushed
    requires |t.queue| < QUEUE_SIZE
  {
    var f := if ShouldCombine(s, t, rect, false) then Flushed(t, []) else Deferred(s, picture, t);
    Flushed(Marked(f.track, rect), f.sends)
  }

  lemma DeferredCovers(s: Setting, picture: Picture, t: Track, x: int, y: int)
    requires Sound(t)
    ensures var f := Deferred(s, picture, t);
            && Sound(f.track) && !f.track.dirty && (t.realized ==> f.track.realized)
            && (s.bounds.Has(x, y) && Waits(t, x, y) ==> Waits(f.track, x, y) || Covered(f.sends, x, y))
            && (Covered(f.sends, x, y) ==> s.bounds.Has(x, y))
  {
    hide Queued, Covered, Flush;
    FlushCovers(s, picture, t, x, y);
    ToQueueWaits(t, x, y);
    NothingCovered(x, y);
  }

  /** Every pixel that waited or was updated waits now, or lies in an image sent. */
  lemma PostponeCovers(s: Setting, picture: Picture, t: Track, rect: Rect, x: int, y: int)
    requires Sound(t)
    ensures var f := Postpone(s, picture, t, rect);
            && Sound(f.track) && (t.realized ==> f.track.realized)
            && (rect.Has(x, y) ==> Waits(f.track, x, y))
            && (s.bounds.Has(x, y) && Waits(t, x, y) ==> Waits(f.track, x, y) || Covered(f.sends, x, y))
            && (Covered(f.sends, x, y) ==> s.bounds.Has(x, y))
  {
    hide Queued, Covered, Deferred, Waits, ShouldCombine;
    DeferredCovers(s, picture, t, x, y);
    NothingCovered(x, y);
    var f := if ShouldCombine(s, t, rect, false) then Flushed(t, []) else Deferred(s, picture, t);
    if rect.Has(x, y) || Waits(f.track, x, y) {
      MarkedWaits(f.track, rect, x, y);
    }
  }
}
