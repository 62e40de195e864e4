/** Turning syncs at irregular times into video at 25 frames per second
    (src/guacenc/video.c, display-sync.c). */
module Timeline {

  const FRAMERATE: int := 25
  const INT_MAX: int := 0x7FFF_FFFF

  /** The length of a frame in milliseconds, 1000 / FRAMERATE. */
  const PERIOD: int := 40

  /** The most frames one sync may be worth before elapsed * 1000 exceeds an int. */
  const MAX_ELAPSED: int := INT_MAX / 1000

  /** A picture of the video: what the display looked like, once it had pixels. */
  datatype Frame = Blank | Shows(state: int)

  /** A sync: its time and the state of the display then, if it has pixels. */
  datatype Sync = Sync(timestamp: int, state: Frame)

  /** The time of the last sync; zero when there was none. */
  function LastTime(accepted: seq<Sync>): int {
    if accepted == [] then 0 else accepted[|accepted| - 1].timestamp
  }

  /** The syncs that are not rejected as going back in time. */
  function Accepted(syncs: seq<Sync>): seq<Sync> {
    if syncs == [] then []
    else
      var before := Accepted(syncs[..|syncs| - 1]);
      var s := syncs[|syncs| - 1];
      if s.timestamp < LastTime(before) then before else before + [s]
  }

  /** Nothing is rejected that does not go back in time. */
  lemma {:induction false} OrderedIsAccepted(syncs: seq<Sync>)
    requires forall i, j :: 0 <= i <= j < |syncs| ==> 0 <= syncs[i].timestamp <= syncs[j].timestamp
    ensures Accepted(syncs) == syncs
  {
    if syncs != [] {
      var n := |syncs| - 1;
      OrderedIsAccepted(syncs[..n]);
      assert syncs == syncs[..n] + [syncs[n]];
    }
  }

  /** The first time that is not zero, at which the video starts. */
  function StartTime(accepted: seq<Sync>): int {
    if accepted == [] then 0
    else
      var t := StartTime(accepted[..|accepted| - 1]);
      if t != 0 then t else LastTime(accepted)
  }

  /** What the display last looked like before the given time. */
  function StateBefore(accepted: seq<Sync>, time: int): Frame {
    if accepted == [] then Blank
    else
      var s := accepted[|accepted| - 1];
      if s.timestamp < time && s.state.Shows? then s.state else StateBefore(accepted[..|accepted| - 1], time)
  }

  /** The number of whole frames between the start and the last sync. */
  function FramesDue(accepted: seq<Sync>): int {
    var t0 := StartTime(accepted);
    if t0 == 0 then 0 else (LastTime(accepted) - t0) / PERIOD
  }

  /** No sync comes so long after the one before that frames cannot be counted
      in an int. */
  predicate GapsFit(accepted: seq<Sync>)
  {
    forall n :: 0 < n <= |accepted| ==> FramesDue(accepted[..n]) - FramesDue(accepted[..n - 1]) <= MAX_ELAPSED
  }

  /** Times never decrease and are never negative. */
  predicate Ordered(accepted: seq<Sync>) {
    && (forall i :: 0 <= i < |accepted| ==> 0 <= accepted[i].timestamp)
    && forall i, j :: 0 <= i <= j < |accepted| ==> accepted[i].timestamp <= accepted[j].timestamp
  }

  lemma {:induction false} AcceptedIsOrdered(syncs: seq<Sync>)
    ensures Ordered(Accepted(syncs))
  {
    if syncs != [] {
      AcceptedIsOrdered(syncs[..|syncs| - 1]);
    }
  }

  /** A sync that is not before the given time does not change what was seen
      before it. */
  lemma LaterSync(accepted: seq<Sync>, s: Sync, time: int)
    requires s.timestamp >= time
    ensures StateBefore(accepted + [s], time) == StateBefore(accepted, time)
  {
    assert (accepted + [s])[..|accepted|] == accepted;
  }

  /** Between the last sync and any later time nothing more was seen. */
  lemma {:induction false} SameStateAfter(accepted: seq<Sync>, t: int, u: int)
    requires forall i :: 0 <= i < |accepted| ==> accepted[i].timestamp < t && accepted[i].timestamp < u
    ensures StateBefore(accepted, t) == StateBefore(accepted, u)
  {
    if accepted != [] {
      SameStateAfter(accepted[..|accepted| - 1], t, u);
    }
  }

  /** Each frame shows what the display last looked like before the frame ended. */
  ghost predicate Filmed(accepted: seq<Sync>, written: seq<Frame>) {
    forall k :: 0 <= k < |written| ==> written[k] == StateBefore(accepted, StartTime(accepted) + PERIOD * (k + 1))
  }

  lemma WholeFrames(d: int)
    requires d >= 0
    ensures d * FRAMERATE / 1000 == d / PERIOD && d / PERIOD * 1000 / FRAMERATE == PERIOD * (d / PERIOD)
    ensures PERIOD * (d / PERIOD) <= d < PERIOD * (d / PERIOD) + PERIOD
  {
  }

  class Video {
    var lastTimestamp: int
    var nextPts: int
    var nextFrame: Frame
    /** The frames handed to the encoder so far, with their presentation times. */
    ghost var written: seq<Frame>

    constructor ()
      ensures lastTimestamp == 0 && nextPts == 0 && nextFrame == Blank && written == []
    {
      lastTimestamp, nextPts, nextFrame, written := 0, 0, Blank, [];
    }

    /** guacenc_video_flush_frame. */
    method FlushFrame()
      modifies this
      ensures written == old(written) + [nextFrame] && nextPts == old(nextPts) + 1
      ensures nextFrame == old(nextFrame) && lastTimestamp == old(lastTimestamp)
    {
      written := written + [nextFrame];
      nextPts := nextPts + 1;
    }

    /** guacenc_video_advance_timeline: write as many frames as fit since the last
        one, and keep what is left of the time. */
    method AdvanceTimeline(timestamp: int)
      requires lastTimestamp != 0 ==> lastTimestamp <= timestamp && (timestamp - lastTimestamp) / PERIOD <= MAX_ELAPSED
      modifies this
      ensures nextFrame == old(nextFrame) && |written| - old(|written|) == nextPts - old(nextPts)
      ensures old(lastTimestamp) == 0 ==> lastTimestamp == timestamp && written == old(written)
      ensures old(lastTimestamp) != 0 ==>
                && old(lastTimestamp) <= lastTimestamp <= timestamp < lastTimestamp + PERIOD
                && lastTimestamp == old(lastTimestamp) + PERIOD * (|written| - old(|written|))
      ensures old(written) <= written
      ensures forall k :: old(|written|) <= k < |written| ==> written[k] == nextFrame
    {
      var nextTimestamp := timestamp;
      if lastTimestamp != 0 {
        var elapsed := (timestamp - lastTimestamp) * FRAMERATE / 1000;
        WholeFrames(timestamp - lastTimestamp);
        if elapsed == 0 {
          return;
        }
        nextTimestamp := lastTimestamp + elapsed * 1000 / FRAMERATE;
        ghost var frames := elapsed;
        while true
          invariant 1 <= elapsed <= frames
          invariant nextFrame == old(nextFrame) && lastTimestamp == old(lastTimestamp)
          invariant |written| == old(|written|) + frames - elapsed && nextPts == old(nextPts) + frames - elapsed
          invariant old(written) <= written
          invariant forall k :: old(|written|) <= k < |written| ==> written[k] == nextFrame
          decreases elapsed
        {
          FlushFrame();
          elapsed := elapsed - 1;
          if elapsed == 0 {
            break;
          }
        }
      }
      lastTimestamp := nextTimestamp;
    }

    /** guacenc_video_prepare_frame: a display without pixels leaves the frame. */
    method PrepareFrame(state: Frame)
      modifies this`nextFrame
      ensures nextFrame == if state.Shows? then state else old(nextFrame)
    {
      if state.Blank? {
        return;
      }
      nextFrame := state;
    }
  }

  /** The video starts no later than the last sync, once a time is not zero. */
  lemma {:induction false} StartIsEarlier(accepted: seq<Sync>)
    requires Ordered(accepted)
    ensures 0 <= StartTime(accepted) <= LastTime(accepted)
    ensures StartTime(accepted) == 0 ==> LastTime(accepted) == 0
  {
    if accepted != [] {
      StartIsEarlier(accepted[..|accepted| - 1]);
    }
  }

  /** The frames due at a sync, from those due before it. */
  lemma FramesAdded(before: seq<Sync>, s: Sync)
    requires Ordered(before) && s.timestamp >= LastTime(before)
    ensures var after, n, t0 := before + [s], FramesDue(before), StartTime(before);
            && n >= 0 && LastTime(after) == s.timestamp
            && (t0 == 0 ==> n == 0 && StartTime(after) == s.timestamp && FramesDue(after) == 0)
            && (t0 != 0 ==>
                 && StartTime(after) == t0 && t0 + PERIOD * n <= LastTime(before) < t0 + PERIOD * (n + 1)
                 && FramesDue(after) == n + (s.timestamp - (t0 + PERIOD * n)) / PERIOD)
  {
    hide Ordered;
    StartIsEarlier(before);
    assert (before + [s])[..|before|] == before;
  }

  /** Between the last sync and any later time nothing more was seen. */
  lemma StateUntil(accepted: seq<Sync>, t: int, u: int)
    requires Ordered(accepted) && LastTime(accepted) < t && LastTime(accepted) < u
    ensures StateBefore(accepted, t) == StateBefore(accepted, u)
  {
    SameStateAfter(accepted, t, u);
  }

  /** Frames written at a sync show the state before it. */
  lemma StillFilmed(before: seq<Sync>, s: Sync, shown: seq<Frame>, written: seq<Frame>)
    requires Ordered(before) && s.timestamp >= LastTime(before) && Filmed(before, shown) && shown <= written
    requires |shown| == FramesDue(before) && |written| == FramesDue(before + [s])
    requires forall k :: |shown| <= k < |written| ==> written[k] == StateBefore(before, LastTime(before) + 1)
    ensures Filmed(before + [s], written)
  {
    hide StateBefore, Ordered, FramesDue, StartTime;
    var t0 := StartTime(before + [s]);
    FramesAdded(before, s);
    forall k | 0 <= k < |written| ensures written[k] == StateBefore(before + [s], t0 + PERIOD * (k + 1)) {
      LaterSync(before, s, t0 + PERIOD * (k + 1));
      if k < |shown| {
        assert written[k] == shown[k];
      } else {
        StateUntil(before, LastTime(before) + 1, t0 + PERIOD * (k + 1));
      }
    }
  }

  lemma StillOrdered(accepted: seq<Sync>, s: Sync)
    requires Ordered(accepted) && s.timestamp >= LastTime(accepted)
    ensures Ordered(accepted + [s]) && s.timestamp >= 0
  {
  }

  lemma LatestState(before: seq<Sync>, s: Sync)
    ensures StateBefore(before + [s], s.timestamp + 1) ==
            if s.state.Shows? then s.state else StateBefore(before, s.timestamp + 1)
  {
    assert (before + [s])[..|before|] == before;
  }

  class Display {
    var lastSync: int
    const video: Video
    /** The syncs accepted so far. */
    ghost var accepted: seq<Sync>

    /** What holds between syncs: the number of frames is that of whole periods
        since the start, and each frame shows what the display last looked like
        before the frame ended. */
    ghost predicate Valid()
      reads this, video
    {
      && Ordered(accepted) && lastSync == LastTime(accepted)
      && video.nextFrame == StateBefore(accepted, lastSync + 1)
      && video.nextPts == |video.written|
      && video.lastTimestamp == (if StartTime(accepted) == 0 then 0 else StartTime(accepted) + PERIOD * |video.written|)
      && |video.written| == FramesDue(accepted)
      && Filmed(accepted, video.written)
    }

    constructor ()
      ensures Valid() && fresh(video) && accepted == []
    {
      lastSync, accepted := 0, [];
      video := new Video();
    }

    /** guacenc_display_sync. */
    method HandleSync(s: Sync) returns (rejected: bool)
      requires Valid() && FramesDue(accepted + [s]) - FramesDue(accepted) <= MAX_ELAPSED
      modifies this, video
      ensures Valid() && rejected == (s.timestamp < old(LastTime(accepted)))
      ensures accepted == if rejected then old(accepted) else old(accepted) + [s]
    {
      hide StateBefore, Ordered, Filmed, FramesDue, StartTime;
      if s.timestamp < lastSync {
        return true;
      }
      ghost var before, shown := accepted, video.written;
      StillOrdered(before, s);
      FramesAdded(before, s);
      StartIsEarlier(before);
      lastSync := s.timestamp;
      accepted := before + [s];
      video.AdvanceTimeline(s.timestamp);
      StillFilmed(before, s, shown, video.written);
      video.PrepareFrame(s.state);
      StateUntil(before, LastTime(before) + 1, s.timestamp + 1);
      LatestState(before, s);
      rejected := false;
    }
  }

  lemma {:induction false} AcceptedGrows(syncs: seq<Sync>, i: nat)
    requires i <= |syncs|
    ensures Accepted(syncs[..i]) <= Accepted(syncs)
    decreases |syncs| - i
  {
    if i == |syncs| {
      assert syncs[..i] == syncs;
    } else {
      AcceptedGrows(syncs, i + 1);
      assert syncs[..i + 1][..i] == syncs[..i];
    }
  }

  lemma OneStep(syncs: seq<Sync>, i: nat)
    requires i < |syncs|
    ensures var before := Accepted(syncs[..i]);
            Accepted(syncs[..i + 1]) == if syncs[i].timestamp < LastTime(before) then before else before + [syncs[i]]
  {
    assert syncs[..i + 1][..i] == syncs[..i];
  }

  /** A sync that goes back in time is due no frames. */
  lemma EarlierDue(before: seq<Sync>, s: Sync)
    requires Ordered(before) && s.timestamp < LastTime(before)
    ensures FramesDue(before + [s]) <= FramesDue(before)
  {
    hide Ordered;
    StartIsEarlier(before);
    assert (before + [s])[..|before|] == before;
  }

  lemma GapFits(syncs: seq<Sync>, i: nat)
    requires i < |syncs| && GapsFit(Accepted(syncs))
    ensures var before := Accepted(syncs[..i]);
            FramesDue(before + [syncs[i]]) - FramesDue(before) <= MAX_ELAPSED
  {
    hide Accepted;
    AcceptedGrows(syncs, i + 1);
    var all, before := Accepted(syncs), Accepted(syncs[..i]);
    OneStep(syncs, i);
    if syncs[i].timestamp >= LastTime(before) {
      var n := |before| + 1;
      assert all[..n] == before + [syncs[i]] && all[..n - 1] == before;
    } else {
      AcceptedIsOrdered(syncs[..i]);
      EarlierDue(before, syncs[i]);
    }
  }

  /** A whole recording. The video has as many frames as whole periods passed
      between the first time and the last, however many syncs there were and
      whichever were rejected, and each frame shows what the display last looked
      like before the frame ended. */
  method Encode(syncs: seq<Sync>) returns (display: Display)
    requires GapsFit(Accepted(syncs))
    ensures fresh(display) && display.accepted == Accepted(syncs)
    ensures |display.video.written| == FramesDue(Accepted(syncs))
    ensures Filmed(Accepted(syncs), display.video.written)
  {
    hide StateBefore, Ordered, FramesDue, StartTime, Filmed;
    display := new Display();
    for i := 0 to |syncs|
      invariant fresh(display) && fresh(display.video) && display.Valid()
      invariant display.accepted == Accepted(syncs[..i])
    {
      assert syncs[..i + 1][..i] == syncs[..i];
      GapFits(syncs, i);
      var rejected := display.HandleSync(syncs[i]);
    }
    assert syncs[..|syncs|] == syncs;
  }

  // -------------------------------------------------------------------- framing

  lemma Quotient(n: int, d: int)
    requires n >= 0 && d > 0
    ensures n / d >= 0 && n / d * d <= n < n / d * d + d
  {
  }

  lemma HalfQuotient(n: int, d: int)
    requires n >= 0 && d > 0
    ensures var h := n / d / 2; h >= 0 && 2 * h * d <= n < 2 * h * d + 2 * d
  {
    Quotient(n, d);
    var q := n / d;
    var h := q / 2;
    assert 2 * h <= q <= 2 * h + 1;
    assert 2 * h * d <= q * d <= (2 * h + 1) * d;
  }

  lemma Scaling(x: int, y: int)
    requires x > 0 && y > 0
    ensures x * y > 0
  {
  }

  lemma TimesGrows(a: int, b: int, d: int)
    requires a <= b && d > 0
    ensures a * d <= b * d
  {
  }

  lemma QuotientAtMost(n: int, d: int, b: int)
    requires n >= 0 && d > 0
    ensures n / d <= b <==> n < (b + 1) * d
  {
    Quotient(n, d);
    var q := n / d;
    if q <= b {
      TimesGrows(q + 1, b + 1, d);
    } else {
      TimesGrows(b + 1, q, d);
    }
  }

  /** Scaled to the frame's height, does the image fit the frame's width? */
  lemma FitsWidth(w: int, h: int, frameW: int, frameH: int)
    requires w > 0 && h > 0 && frameW > 0 && frameH > 0
    ensures w * frameH / h <= frameW <==> w * frameH < (frameW + 1) * h
  {
    Scaling(w, frameH);
    QuotientAtMost(w * frameH, h, frameW);
  }

  /** The assertion of the letterbox case: an image too wide at full height is not
      too high at full width. */
  lemma FitsHeight(w: int, h: int, frameW: int, frameH: int)
    requires w > 0 && h > 0 && frameW > 0 && frameH > 0 && w * frameH / h > frameW
    ensures h * frameW / w <= frameH
  {
    Scaling(h, frameW);
    FitsWidth(w, h, frameW, frameH);
    assert h * frameW + h <= w * frameH;
    QuotientAtMost(h * frameW, w, frameH);
  }

  lemma Padding(w: int, h: int, frameW: int, frameH: int)
    requires w > 0 && h > 0 && frameW > 0 && frameH > 0 && w * frameH / h <= frameW
    ensures var p := (frameW - w * frameH / h) * h / frameH / 2;
            p >= 0 && frameW * h - 2 * frameH < (w + 2 * p) * frameH < (frameW + 1) * h
  {
    Scaling(w, frameH);
    var s := w * frameH / h;
    Quotient(w * frameH, h);
    var room := (frameW - s) * h;
    assert room == frameW * h - s * h;
    assert room >= 0;
    HalfQuotient(room, frameH);
    var p := room / frameH / 2;
    assert (w + 2 * p) * frameH == w * frameH + 2 * p * frameH;
    assert (frameW + 1) * h == frameW * h + h;
  }

  /** The sizing in guacenc_video_prepare_frame: the margins that give an image of
      w by h the proportions of a frame of frameW by frameH. Exactly one
      direction is padded, and the padded image has the frame's proportions to
      within one pixel of the frame above and two of the image below. */
  method Margins(w: int, h: int, frameW: int, frameH: int) returns (letterbox: int, pillarbox: int)
    requires w > 0 && h > 0 && frameW > 0 && frameH > 0
    ensures letterbox >= 0 && pillarbox >= 0 && (letterbox == 0 || pillarbox == 0)
    ensures w * frameH < (frameW + 1) * h ==>
              && letterbox == 0
              && frameW * h - 2 * frameH < (w + 2 * pillarbox) * frameH < (frameW + 1) * h
    ensures w * frameH >= (frameW + 1) * h ==>
              && pillarbox == 0
              && frameH * w - 2 * frameW < (h + 2 * letterbox) * frameW < (frameH + 1) * w
  {
    var scaledWidth, scaledHeight := w * frameH / h, h * frameW / w;
    FitsWidth(w, h, frameW, frameH);
    if scaledWidth <= frameW {
      Padding(w, h, frameW, frameH);
      letterbox := 0;
      pillarbox := (frameW - scaledWidth) * h / frameH / 2;
    } else {
      FitsHeight(w, h, frameW, frameH);
      assert scaledHeight <= frameH;
      Padding(h, w, frameH, frameW);
      pillarbox := 0;
      letterbox := (frameH - scaledHeight) * w / frameW / 2;
    }
  }
}
