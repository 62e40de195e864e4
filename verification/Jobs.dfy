/** Encoder workers sharing a semaphore (src/guacenc/jobs.c). Each worker runs
    job_loop_read_recodingfile; the steps of all workers interleave freely. */
module Jobs {

  /** Where a worker is in its loop. */
  datatype Phase =
    | Starting
    /** Waiting for its first permit. */
    | Waiting
    /** Holding a permit; `sched` asks for a turn of the others. */
    | Holding(sched: bool)
    /** Has given its permit back and waits for another. */
    | Yielded
    /** Returned, its permit given back. */
    | Finished
    /** Returned on a parse error, with its permit. */
    | Lost

  datatype System = System(permits: nat, workers: seq<Phase>)

  /** What the outside decides in one step of a worker. */
  datatype Outcome =
    | OpenFails
    | Opens
    | Wakes
    /** Five seconds have passed. */
    | TimeIsUp
    | ReadsByte
    | ParseFails
    /** End of the file while the job is not to end yet. */
    | AtEnd
    /** End of the file and the job is to end, or a read error. */
    | Stops

  /** The effect of a step on one worker and on the number of permits; None if the
      worker is not where this can happen. */
  datatype Effect = None | Effect(phase: Phase, change: int)

  function StepOf(phase: Phase, outcome: Outcome, permits: nat): Effect {
    match phase
    case Starting =>
      if outcome.OpenFails? then Effect(Finished, 0) else if outcome.Opens? then Effect(Waiting, 0) else None
    case Waiting => if outcome.Wakes? && permits > 0 then Effect(Holding(false), -1) else None
    case Yielded => if outcome.Wakes? && permits > 0 then Effect(Holding(false), -1) else None
    case Holding(sched) =>
      if sched then if outcome.TimeIsUp? then Effect(Yielded, 1) else None
      else (
        match outcome
        case TimeIsUp => Effect(Yielded, 1)
        case ReadsByte => Effect(Holding(false), 0)
        case ParseFails => Effect(Lost, 0)
        case AtEnd => Effect(Holding(true), 0)
        case Stops => Effect(Finished, 1)
        case _ => None)
    case Finished => None
    case Lost => None
  }

  predicate Enabled(s: System, w: nat, outcome: Outcome) {
    w < |s.workers| && StepOf(s.workers[w], outcome, s.permits).Effect?
  }

  function Step(s: System, w: nat, outcome: Outcome): System
    requires Enabled(s, w, outcome)
  {
    var e := StepOf(s.workers[w], outcome, s.permits);
    System(s.permits + e.change, s.workers[w := e.phase])
  }

  datatype Move = Move(worker: nat, outcome: Outcome)

  function Start(window: nat, workers: nat): System {
    System(window, seq(workers, _ => Starting))
  }

  /** The states a system can get to. */
  ghost predicate Reaches(s: System, moves: seq<Move>, t: System)
    decreases |moves|
  {
    if moves == [] then s == t
    else Enabled(s, moves[0].worker, moves[0].outcome) && Reaches(Step(s, moves[0].worker, moves[0].outcome), moves[1..], t)
  }

  function Count(workers: seq<Phase>, counts: Phase -> bool): nat {
    if workers == [] then 0 else (if counts(workers[0]) then 1 else 0) + Count(workers[1..], counts)
  }

  function Holders(s: System): nat { Count(s.workers, (p: Phase) => p.Holding?) }
  function LostPermits(s: System): nat { Count(s.workers, (p: Phase) => p.Lost?) }

  lemma {:induction false} CountUpdate(workers: seq<Phase>, w: nat, phase: Phase, counts: Phase -> bool)
    requires w < |workers|
    ensures Count(workers[w := phase], counts) ==
            Count(workers, counts) - (if counts(workers[w]) then 1 else 0) + (if counts(phase) then 1 else 0)
  {
    if w > 0 {
      CountUpdate(workers[1..], w - 1, phase, counts);
      assert workers[w := phase][1..] == workers[1..][w - 1 := phase];
    } else {
      assert workers[w := phase][1..] == workers[1..];
    }
  }

  lemma {:induction false} CountNone(n: nat, counts: Phase -> bool)
    requires !counts(Starting)
    ensures Count(seq(n, _ => Starting), counts) == 0
  {
    if n > 0 {
      CountNone(n - 1, counts);
      assert seq(n, _ => Starting)[1..] == seq(n - 1, _ => Starting);
    }
  }

  /** A step moves permits between the semaphore, holders and lost ones. */
  lemma StepConserves(s: System, w: nat, outcome: Outcome)
    requires Enabled(s, w, outcome)
    ensures var t := Step(s, w, outcome);
            && t.permits + Holders(t) + LostPermits(t) == s.permits + Holders(s) + LostPermits(s)
            && LostPermits(t) >= LostPermits(s)
  {
    var e := StepOf(s.workers[w], outcome, s.permits);
    CountUpdate(s.workers, w, e.phase, (p: Phase) => p.Holding?);
    CountUpdate(s.workers, w, e.phase, (p: Phase) => p.Lost?);
  }

  lemma {:induction false} RunConserves(s: System, moves: seq<Move>, t: System)
    requires Reaches(s, moves, t)
    ensures t.permits + Holders(t) + LostPermits(t) == s.permits + Holders(s) + LostPermits(s)
    ensures LostPermits(t) >= LostPermits(s)
    decreases |moves|
  {
    if moves != [] {
      var m := moves[0];
      StepConserves(s, m.worker, m.outcome);
      RunConserves(Step(s, m.worker, m.outcome), moves[1..], t);
    }
  }

  /** In every run, permits, holders and permits lost to parse errors make up the
      window; so there are never more holders than the window allows. */
  lemma WindowIsKept(window: nat, workers: nat, moves: seq<Move>, t: System)
    requires Reaches(Start(window, workers), moves, t)
    ensures t.permits + Holders(t) + LostPermits(t) == window && Holders(t) <= window
  {
    CountNone(workers, (p: Phase) => p.Holding?);
    CountNone(workers, (p: Phase) => p.Lost?);
    RunConserves(Start(window, workers), moves, t);
  }

  /** How many moves of a run had this outcome. */
  function Times(moves: seq<Move>, outcome: Outcome): nat {
    if moves == [] then 0 else (if moves[0].outcome == outcome then 1 else 0) + Times(moves[1..], outcome)
  }

  lemma StepCounts(s: System, w: nat, outcome: Outcome)
    requires Enabled(s, w, outcome)
    ensures var t := Step(s, w, outcome);
            && LostPermits(t) == LostPermits(s) + (if outcome.ParseFails? then 1 else 0)
            && t.permits == s.permits + (if outcome.TimeIsUp? || outcome.Stops? then 1 else if outcome.Wakes? then -1 else 0)
  {
    CountUpdate(s.workers, w, StepOf(s.workers[w], outcome, s.permits).phase, (p: Phase) => p.Lost?);
  }

  /** Permits are lost to parse errors and to nothing else; and the semaphore has what
      was not taken by a worker that woke, or was given back when its time was up or it
      stopped. */
  lemma {:induction false} RunCounts(s: System, moves: seq<Move>, t: System)
    requires Reaches(s, moves, t)
    ensures LostPermits(t) == LostPermits(s) + Times(moves, ParseFails)
    ensures t.permits == s.permits - Times(moves, Wakes) + Times(moves, TimeIsUp) + Times(moves, Stops)
    decreases |moves|
  {
    if moves != [] {
      hide LostPermits;
      var m := moves[0];
      StepCounts(s, m.worker, m.outcome);
      RunCounts(Step(s, m.worker, m.outcome), moves[1..], t);
    }
  }

  lemma LostToParseErrors(window: nat, workers: nat, moves: seq<Move>, t: System)
    requires Reaches(Start(window, workers), moves, t)
    ensures LostPermits(t) == Times(moves, ParseFails)
    ensures t.permits == window - Times(moves, Wakes) + Times(moves, TimeIsUp) + Times(moves, Stops)
  {
    CountNone(workers, (p: Phase) => p.Lost?);
    RunCounts(Start(window, workers), moves, t);
  }

  lemma {:induction false} SomeHolder(workers: seq<Phase>, w: nat)
    requires w < |workers| && workers[w].Holding?
    ensures Count(workers, (p: Phase) => p.Holding?) > 0
  {
    if w > 0 {
      SomeHolder(workers[1..], w - 1);
    }
  }

  lemma {:induction false} HolderAmong(workers: seq<Phase>) returns (w: nat)
    requires Count(workers, (p: Phase) => p.Holding?) > 0
    ensures w < |workers| && workers[w].Holding?
  {
    if workers[0].Holding? {
      w := 0;
    } else {
      w := HolderAmong(workers[1..]);
      w := w + 1;
    }
  }

  /** Once parse errors have used up the window no permit is left, nobody holds one,
      and nobody ever will. */
  lemma StuckWhenAllLost(window: nat, workers: nat, moves: seq<Move>, s: System, more: seq<Move>, t: System)
    requires Reaches(Start(window, workers), moves, s) && Reaches(s, more, t) && LostPermits(s) == window
    ensures t.permits == 0 && forall w :: 0 <= w < |t.workers| ==> !t.workers[w].Holding?
  {
    WindowIsKept(window, workers, moves, s);
    RunConserves(s, more, t);
    forall w | 0 <= w < |t.workers| ensures !t.workers[w].Holding? {
      if t.workers[w].Holding? {
        SomeHolder(t.workers, w);
      }
    }
  }

  lemma OneMove(s: System, m: Move)
    requires Enabled(s, m.worker, m.outcome)
    ensures Reaches(s, [m], Step(s, m.worker, m.outcome))
  {
    assert Reaches(Step(s, m.worker, m.outcome), [], Step(s, m.worker, m.outcome));
    assert [m][1..] == [];
  }

  lemma TwoMoves(s: System, m: Move, n: Move)
    requires Enabled(s, m.worker, m.outcome)
    requires Enabled(Step(s, m.worker, m.outcome), n.worker, n.outcome)
    ensures var u := Step(s, m.worker, m.outcome); Reaches(s, [m, n], Step(u, n.worker, n.outcome))
  {
    OneMove(Step(s, m.worker, m.outcome), n);
    assert [m, n][1..] == [n];
  }

  /** As long as a permit is not lost, a waiting worker can get to run: a permit is
      there, or a holder may give up its own. */
  lemma CanRunAgain(window: nat, workers: nat, moves: seq<Move>, s: System, w: nat) returns (more: seq<Move>, t: System)
    requires Reaches(Start(window, workers), moves, s) && LostPermits(s) < window
    requires w < |s.workers| && (s.workers[w].Waiting? || s.workers[w].Yielded?)
    ensures Reaches(s, more, t) && w < |t.workers| && t.workers[w].Holding?
  {
    WindowIsKept(window, workers, moves, s);
    if s.permits > 0 {
      more := [Move(w, Wakes)];
      OneMove(s, Move(w, Wakes));
      t := Step(s, w, Wakes);
    } else {
      var h := HolderAmong(s.workers);
      var u := Step(s, h, TimeIsUp);
      more := [Move(h, TimeIsUp), Move(w, Wakes)];
      TwoMoves(s, Move(h, TimeIsUp), Move(w, Wakes));
      t := Step(u, w, Wakes);
    }
  }

  /** Some continuation lets the worker hold a permit. */
  ghost predicate RunsLater(s: System, w: nat) {
    exists more, t :: Reaches(s, more, t) && w < |t.workers| && t.workers[w].Holding?
  }

  /** A waiting worker can run again if and only if parse errors have not used up the
      window. */
  lemma RunsAgainIff(window: nat, workers: nat, moves: seq<Move>, s: System, w: nat)
    requires Reaches(Start(window, workers), moves, s)
    requires w < |s.workers| && (s.workers[w].Waiting? || s.workers[w].Yielded?)
    ensures LostPermits(s) < window <==> RunsLater(s, w)
  {
    WindowIsKept(window, workers, moves, s);
    if LostPermits(s) < window {
      var more, t := CanRunAgain(window, workers, moves, s, w);
      assert Reaches(s, more, t) && t.workers[w].Holding?;
    } else {
      forall more, t | Reaches(s, more, t) ensures !(w < |t.workers| && t.workers[w].Holding?) {
        StuckWhenAllLost(window, workers, moves, s, more, t);
      }
    }
  }

  lemma OneLost(s: System)
    requires s.workers == [Lost, Waiting]
    ensures LostPermits(s) == 1
  {
    var f := (p: Phase) => p.Lost?;
    assert s.workers[1..] == [Waiting] && [Waiting][1..] == [];
    assert Count([Waiting], f) == 0;
    assert Count(s.workers, f) == 1;
  }

  /** Two workers and one permit: the first gets it and fails to parse, and the second
      waits for ever. */
  lemma OneParseErrorIsEnough() returns (moves: seq<Move>, s: System)
    ensures Reaches(Start(1, 2), moves, s) && LostPermits(s) == 1 && s.workers == [Lost, Waiting] && !RunsLater(s, 1)
  {
    var s0 := Start(1, 2);
    var s1 := Step(s0, 0, Opens);
    var s2 := Step(s1, 1, Opens);
    var s3 := Step(s2, 0, Wakes);
    s := Step(s3, 0, ParseFails);
    moves := [Move(0, Opens), Move(1, Opens), Move(0, Wakes), Move(0, ParseFails)];
    TwoMoves(s2, Move(0, Wakes), Move(0, ParseFails));
    assert moves[1..][1..] == [Move(0, Wakes), Move(0, ParseFails)];
    assert moves[1..][0] == Move(1, Opens);
    assert Reaches(s1, moves[1..], s);
    assert s.workers == [Lost, Waiting];
    OneLost(s);
    RunsAgainIff(1, 2, moves, s, 1);
  }
}
