/** How `sync_loop` of `crates/itsanas-cli/src/daemon.rs` drives the steering:
    one turn reads the file, takes in the folder unless paused, asks what is
    next, and paces the snapshot. What a turn meets is given to it. */
module SyncLoop {
  import opened Arithmetic
  import opened Text
  import opened ControlFile
  import opened Steering
  import opened SteeringHistory
  import opened Pace

  /** What one turn of the loop meets: the read of the file and the wall clock,
      whether the folder changed and when that was seen, when the question was
      asked and when the round it led to was over, and when the snapshot was
      looked at. */
  datatype Turn = Turn(
    look: Look,
    clock: u64,
    folderChanged: bool,
    changedAt: Instant,
    askedAt: Instant,
    endedAt: Instant,
    pacedAt: Instant)

  /** Whether the turn takes in a change: a paused one touches nothing. */
  predicate TakesIn(m: Machine, turn: Turn) {
    !Refreshed(m.state, turn.look, turn.clock).holding && turn.folderChanged
  }

  /** What the turn does to the steering, in order. `connects` is whether the
      policy lets this machine dial at all. */
  function TurnEvents(m: Machine, turn: Turn, connects: bool): seq<Event> {
    [Refresh(turn.look, turn.clock)]
    + (if TakesIn(m, turn) then [Changed(turn.changedAt)] else [])
    + (if connects then [Ask(turn.askedAt, turn.endedAt)] else [])
  }

  function AfterTurn(m: Machine, turn: Turn, connects: bool, base: Duration): Machine {
    Run(m, TurnEvents(m, turn, connects), base)
  }

  /** The machine as the turn's question finds it. */
  function AtQuestion(m: Machine, turn: Turn): Machine {
    var read := m.(state := Refreshed(m.state, turn.look, turn.clock));
    if TakesIn(m, turn) then read.(state := ChangedAt(read.state, turn.changedAt)) else read
  }

  function TurnAnswer(m: Machine, turn: Turn, connects: bool, base: Duration): Next {
    if connects then AnswerTo(AtQuestion(m, turn), Ask(turn.askedAt, turn.endedAt), base) else Wait
  }

  function TurnPass(m: Machine, turn: Turn, connects: bool, base: Duration): Pass {
    Pass(turn.pacedAt, InForce(AtQuestion(m, turn).state, base),
         TakesIn(m, turn) || TurnAnswer(m, turn, connects, base) != Wait)
  }

  function LoopEvents(m: Machine, turns: seq<Turn>, connects: bool, base: Duration): seq<Event>
    decreases |turns|
  {
    if turns == [] then []
    else
      var next := AfterTurn(m, turns[0], connects, base);
      TurnEvents(m, turns[0], connects) + LoopEvents(next, turns[1..], connects, base)
  }

  function LoopAnswers(m: Machine, turns: seq<Turn>, connects: bool, base: Duration): seq<Next>
    decreases |turns|
  {
    if turns == [] then []
    else
      var next := AfterTurn(m, turns[0], connects, base);
      [TurnAnswer(m, turns[0], connects, base)] + LoopAnswers(next, turns[1..], connects, base)
  }

  function LoopPasses(m: Machine, turns: seq<Turn>, connects: bool, base: Duration): seq<Pass>
    decreases |turns|
  {
    if turns == [] then []
    else
      var next := AfterTurn(m, turns[0], connects, base);
      [TurnPass(m, turns[0], connects, base)] + LoopPasses(next, turns[1..], connects, base)
  }

  lemma OneEvent(m: Machine, e: Event, base: Duration)
    ensures Run(m, [e], base) == Step(m, e, base)
    ensures Dials(m, [e], base) == Count(AnswerTo(m, e, base) != Wait)
  {
    assert [e][1..] == [];
  }

  lemma TurnRuns(m: Machine, turn: Turn, connects: bool, base: Duration)
    ensures AfterTurn(m, turn, connects, base)
         == (var q := AtQuestion(m, turn); if connects then Step(q, Ask(turn.askedAt, turn.endedAt), base) else q)
    ensures Dials(m, TurnEvents(m, turn, connects), base) == Count(TurnAnswer(m, turn, connects, base) != Wait)
  {
    var read, change, ask := Refresh(turn.look, turn.clock), Changed(turn.changedAt), Ask(turn.askedAt, turn.endedAt);
    var mid := if TakesIn(m, turn) then [change] else [];
    var tail := if connects then [ask] else [];
    OneEvent(m, read, base);
    OneEvent(Step(m, read, base), change, base);
    OneEvent(AtQuestion(m, turn), ask, base);
    RunAppend(m, [read], mid, base);
    RunAppend(m, [read] + mid, tail, base);
    CountsAppend(m, [read], mid, base);
    CountsAppend(m, [read] + mid, tail, base);
  }

  /** One turn of the loop. */
  method TakeTurn(steering: Steering, snap: SnapshotPace, lastRound: Option<Instant>, turn: Turn, connects: bool,
                  base: Duration)
    returns (next: Next, ended: Option<Instant>, wrote: bool)
    modifies steering, snap
    ensures var m := Machine(old(steering.View()), lastRound);
            next == TurnAnswer(m, turn, connects, base)
            && Machine(steering.View(), ended) == AfterTurn(m, turn, connects, base)
            && wrote == SnapshotDue(old(snap.last), TurnPass(m, turn, connects, base))
            && snap.last == AfterPass(old(snap.last), TurnPass(m, turn, connects, base))
  {
    ghost var m := Machine(steering.View(), lastRound);
    TurnRuns(m, turn, connects, base);
    var said := steering.Refresh(turn.look, turn.clock);
    var chosen := Clamp(steering.current.interval);
    var interval := if chosen.Some? then chosen.value else base;
    var changedHere := !steering.holding && turn.folderChanged;
    if changedHere {
      steering.ChangedHere(turn.changedAt);
    }
    assert Machine(steering.View(), lastRound) == AtQuestion(m, turn);
    next := Wait;
    if connects {
      next := steering.Decide(turn.askedAt, lastRound, base);
    }
    ended := if next != Wait then Some(turn.endedAt) else lastRound;
    wrote := snap.After(Pass(turn.pacedAt, interval, changedHere || next != Wait));
  }

  /** The loop itself: its answers and its snapshot writes are those of the
      steering and the pace run over the same turns. */
  method SyncLoop(first: Look, startClock: u64, turns: seq<Turn>, connects: bool, base: Duration)
    returns (answers: seq<Next>, written: seq<Instant>)
    ensures answers == LoopAnswers(Start(first, startClock), turns, connects, base)
    ensures written == Writes(None, LoopPasses(Start(first, startClock), turns, connects, base))
  {
    var steering := new Steering.Start(first, startClock);
    var snap := new SnapshotPace();
    var lastRound: Option<Instant> := None;
    answers, written := [], [];
    ghost var start := Start(first, startClock);
    for i := 0 to |turns|
      invariant fresh(steering) && fresh(snap)
      invariant Remaining(start, answers, written, Machine(steering.View(), lastRound), snap.last, turns, i,
                          connects, base)
    {
      ghost var m, last := Machine(steering.View(), lastRound), snap.last;
      var next, ended, wrote := TakeTurn(steering, snap, lastRound, turns[i], connects, base);
      RemainingStep(start, answers, written, m, last, turns, i, connects, base);
      answers := answers + [next];
      written := written + if wrote then [turns[i].pacedAt] else [];
      lastRound := ended;
    }
    assert turns[|turns|..] == [];
  }

  /** What is done so far, and the rest of the run from here, are the whole. */
  ghost predicate Remaining(start: Machine, answers: seq<Next>, written: seq<Instant>, m: Machine, last: Stamp,
                            turns: seq<Turn>, i: nat, connects: bool, base: Duration)
    requires i <= |turns|
  {
    LoopAnswers(start, turns, connects, base) == answers + LoopAnswers(m, turns[i..], connects, base)
    && Writes(None, LoopPasses(start, turns, connects, base))
      == written + Writes(last, LoopPasses(m, turns[i..], connects, base))
  }

  lemma RemainingStep(start: Machine, answers: seq<Next>, written: seq<Instant>, m: Machine, last: Stamp,
                      turns: seq<Turn>, i: nat, connects: bool, base: Duration)
    requires i < |turns| && Remaining(start, answers, written, m, last, turns, i, connects, base)
    ensures var pass := TurnPass(m, turns[i], connects, base);
            Remaining(start, answers + [TurnAnswer(m, turns[i], connects, base)],
                      written + (if SnapshotDue(last, pass) then [turns[i].pacedAt] else []),
                      AfterTurn(m, turns[i], connects, base), AfterPass(last, pass), turns, i + 1, connects, base)
  {
    hide LoopAnswers, LoopPasses, Writes, TurnAnswer, TurnPass, AfterTurn, SnapshotDue, AfterPass;
    var turn, rest := turns[i], turns[i + 1..];
    assert turns[i..] == [turn] + rest;
    LoopStep(m, last, turn, rest, connects, base);
    var next, pass := AfterTurn(m, turn, connects, base), TurnPass(m, turn, connects, base);
    var now := if SnapshotDue(last, pass) then [turn.pacedAt] else [];
    var later := Writes(AfterPass(last, pass), LoopPasses(next, rest, connects, base));
    var first, others := [TurnAnswer(m, turn, connects, base)], LoopAnswers(next, rest, connects, base);
    assert answers + (first + others) == (answers + first) + others;
    assert written + (now + later) == (written + now) + later;
  }

  lemma LoopStep(m: Machine, last: Stamp, turn: Turn, rest: seq<Turn>, connects: bool, base: Duration)
    ensures var next := AfterTurn(m, turn, connects, base);
            var pass := TurnPass(m, turn, connects, base);
            LoopAnswers(m, [turn] + rest, connects, base)
            == [TurnAnswer(m, turn, connects, base)] + LoopAnswers(next, rest, connects, base)
            && Writes(last, LoopPasses(m, [turn] + rest, connects, base))
               == (if SnapshotDue(last, pass) then [turn.pacedAt] else [])
               + Writes(AfterPass(last, pass), LoopPasses(next, rest, connects, base))
  {
    assert ([turn] + rest)[1..] == rest;
    var next := AfterTurn(m, turn, connects, base);
    var pass := TurnPass(m, turn, connects, base);
    assert ([pass] + LoopPasses(next, rest, connects, base))[1..] == LoopPasses(next, rest, connects, base);
  }

  // ------------------------------------------------ the loop's promises

  /** Each turn's instants in order, and each turn after the one before. */
  predicate TurnsTimed(t: Instant, turns: seq<Turn>)
    decreases |turns|
  {
    turns == [] ||
    (t <= turns[0].changedAt <= turns[0].askedAt <= turns[0].endedAt && TurnsTimed(turns[0].endedAt, turns[1..]))
  }

  function DialCount(answers: seq<Next>): nat {
    if answers == [] then 0 else Count(answers[0] != Wait) + DialCount(answers[1..])
  }

  lemma {:induction false} CountsAppend(m: Machine, a: seq<Event>, b: seq<Event>, base: Duration)
    ensures Dials(m, a + b, base) == Dials(m, a, base) + Dials(Run(m, a, base), b, base)
    decreases |a|
  {
    if a == [] {
      assert a + b == b;
    } else {
      assert (a + b)[0] == a[0] && (a + b)[1..] == a[1..] + b;
      CountsAppend(Step(m, a[0], base), a[1..], b, base);
    }
  }

  lemma {:induction false} TimedAppend(t: Instant, a: seq<Event>, b: seq<Event>)
    requires Timed(t, a) && Timed(EndOf(t, a), b)
    ensures Timed(t, a + b) && EndOf(t, a + b) == EndOf(EndOf(t, a), b)
    decreases |a|
  {
    if a == [] {
      assert a + b == b;
    } else {
      assert (a + b)[0] == a[0] && (a + b)[1..] == a[1..] + b;
      TimedAppend(Later(t, a[0]), a[1..], b);
    }
  }

  lemma {:induction false} TimedEarlier(s: Instant, t: Instant, es: seq<Event>)
    requires s <= t && Timed(t, es)
    ensures Timed(s, es) && EndOf(s, es) <= EndOf(t, es)
    decreases |es|
  {
    if es != [] {
      TimedEarlier(Later(s, es[0]), Later(t, es[0]), es[1..]);
    }
  }

  lemma TurnIsTimed(m: Machine, t: Instant, turn: Turn, connects: bool)
    requires t <= turn.changedAt <= turn.askedAt <= turn.endedAt
    ensures var es := TurnEvents(m, turn, connects);
            Timed(t, es) && EndOf(t, es) <= turn.endedAt
  {
    var read, change, ask := Refresh(turn.look, turn.clock), Changed(turn.changedAt), Ask(turn.askedAt, turn.endedAt);
    var mid := if TakesIn(m, turn) then [change] else [];
    var tail := if connects then [ask] else [];
    assert [read][1..] == [] && [change][1..] == [] && [ask][1..] == [];
    TimedAppend(t, [read], mid);
    TimedAppend(t, [read] + mid, tail);
  }

  function LastEnd(t: Instant, turns: seq<Turn>): Instant
    decreases |turns|
  {
    if turns == [] then t else LastEnd(turns[0].endedAt, turns[1..])
  }

  lemma {:induction false} LoopIsATimedRun(m: Machine, t: Instant, turns: seq<Turn>, connects: bool, base: Duration)
    requires TurnsTimed(t, turns)
    ensures var es := LoopEvents(m, turns, connects, base);
            Timed(t, es) && EndOf(t, es) <= LastEnd(t, turns)
            && Dials(m, es, base) == DialCount(LoopAnswers(m, turns, connects, base))
    decreases |turns|
  {
    if turns != [] {
      var turn, next := turns[0], AfterTurn(m, turns[0], connects, base);
      var head := TurnEvents(m, turn, connects);
      var tail := LoopEvents(next, turns[1..], connects, base);
      TurnIsTimed(m, t, turn, connects);
      LoopIsATimedRun(next, turn.endedAt, turns[1..], connects, base);
      TimedEarlier(EndOf(t, head), turn.endedAt, tail);
      TimedAppend(t, head, tail);
      TurnRuns(m, turn, connects, base);
      CountsAppend(m, head, tail, base);
    }
  }

  /** The daemon's dialling rate, over every run of the loop: rounds and
      publications together are at most one, plus the clicks and ended pauses it
      saw, plus its running time over half a minute (over `base`, when an
      operator chose a shorter one). */
  lemma LoopRateBound(first: Look, startClock: u64, t: Instant, turns: seq<Turn>, connects: bool, base: Duration)
    requires base > 0 && TurnsTimed(t, turns)
    ensures var m := Start(first, startClock);
            var es := LoopEvents(m, turns, connects, base);
            DialCount(LoopAnswers(m, turns, connects, base))
            <= 1 + Clicks(m, es, base) + Lifts(m, es, base) + (LastEnd(t, turns) - t) / Min(MIN_INTERVAL, base)
  {
    var m := Start(first, startClock);
    var es := LoopEvents(m, turns, connects, base);
    LoopIsATimedRun(m, t, turns, connects, base);
    EndIsLater(t, es);
    RateBound(first, startClock, t, es, base);
    DivMono(EndOf(t, es) - t, LastEnd(t, turns) - t, Gap(base));
  }

  /** A machine whose policy lets it dial nobody never does, and loses nothing by
      it: a change waiting before stays, at its instant, over every run of turns. */
  lemma {:induction false} NoConnectionLosesNothing(m: Machine, turns: seq<Turn>, base: Duration)
    ensures DialCount(LoopAnswers(m, turns, false, base)) == 0
    ensures var after := Run(m, LoopEvents(m, turns, false, base), base);
            after.last == m.last && (m.state.changed.Some? ==> after.state.changed == m.state.changed)
    decreases |turns|
  {
    if turns != [] {
      var next := AfterTurn(m, turns[0], false, base);
      NoConnectionLosesNothing(next, turns[1..], base);
      RunAppend(m, TurnEvents(m, turns[0], false), LoopEvents(next, turns[1..], false, base), base);
      TurnRuns(m, turns[0], false, base);
    }
  }

  /** The loop takes in nothing and runs no round on a turn whose file, as last
      understood, holds a pause at the turn's clock. */
  lemma PausedTurnTouchesNothing(first: Look, startClock: u64, before: seq<Turn>, turn: Turn, connects: bool,
                                 base: Duration)
    requires var start := if first.Some? then first.value else UNREAD;
             var es := LoopEvents(Start(first, startClock), before, connects, base);
             var seen := LastUnderstood(start, es + [Refresh(turn.look, turn.clock)]);
             PauseHolds(seen, turn.clock)
    ensures var m := Run(Start(first, startClock), LoopEvents(Start(first, startClock), before, connects, base), base);
            !TakesIn(m, turn) && TurnAnswer(m, turn, connects, base) != Round
  {
    var es := LoopEvents(Start(first, startClock), before, connects, base);
    var read := Refresh(turn.look, turn.clock);
    PauseFollowsTheFile(first, startClock, es + [read], base);
    RunAppend(Start(first, startClock), es, [read], base);
    var m := Run(Start(first, startClock), es, base);
    assert Run(m, [read], base) == Step(m, read, base);
    assert LastClock(startClock, es + [read]) == turn.clock;
  }

  /** The machine a loop's turns leave is the run of its events. */
  lemma {:induction false} LoopRunsItsEvents(m: Machine, a: seq<Turn>, b: seq<Turn>, connects: bool, base: Duration)
    ensures var after := Run(m, LoopEvents(m, a, connects, base), base);
            LoopAnswers(m, a + b, connects, base)
            == LoopAnswers(m, a, connects, base) + LoopAnswers(after, b, connects, base)
    decreases |a|
  {
    if a == [] {
      assert a + b == b;
    } else {
      assert (a + b)[0] == a[0] && (a + b)[1..] == a[1..] + b;
      var next := AfterTurn(m, a[0], connects, base);
      LoopRunsItsEvents(next, a[1..], b, connects, base);
      RunAppend(m, TurnEvents(m, a[0], connects), LoopEvents(next, a[1..], connects, base), base);
    }
  }

  // ------------------------------------------------ a change is sent in time

  /** The control a turn goes by: the one it reads, or the one before. */
  function Read(m: Machine, turn: Turn): Control {
    if turn.look.Some? then turn.look.value else m.state.current
  }

  /** Every turn finds the file not paused. */
  predicate NeverPaused(m: Machine, turns: seq<Turn>, base: Duration)
    decreases |turns|
  {
    turns == []
    || (!SaysPaused(Read(m, turns[0]), turns[0].clock)
        && NeverPaused(AfterTurn(m, turns[0], true, base), turns[1..], base))
  }

  /** Every turn finds an interval of at most this. */
  predicate IntervalsAtMost(m: Machine, turns: seq<Turn>, base: Duration, high: Duration)
    decreases |turns|
  {
    turns == []
    || (Every(Read(m, turns[0]), base) <= high
        && IntervalsAtMost(AfterTurn(m, turns[0], true, base), turns[1..], base, high))
  }

  /** Consecutive turns ask at most `d` apart. */
  predicate AsksApart(turns: seq<Turn>, d: Duration) {
    forall i :: 0 < i < |turns| ==> turns[i].askedAt <= turns[i - 1].askedAt + d
  }

  /** When a change waiting since `t` may go: settled, and half a minute past the
      last round. */
  function MayGo(t: Instant, last: Option<Instant>): Instant {
    if last.Some? && last.value + MIN_INTERVAL > t + SETTLE then last.value + MIN_INTERVAL else t + SETTLE
  }

  /** One turn with a change waiting: a round when it may go, and otherwise either a
      round or nothing changed. */
  lemma TurnWithAChange(m: Machine, turn: Turn, base: Duration, t: Instant)
    requires AtQuestion(m, turn).state.changed == Some(t) && !SaysPaused(Read(m, turn), turn.clock)
    ensures turn.askedAt >= MayGo(t, m.last) ==> TurnAnswer(m, turn, true, base) == Round
    ensures TurnAnswer(m, turn, true, base) != Round ==>
              var next := AfterTurn(m, turn, true, base); next.state.changed == Some(t) && next.last == m.last
  {
    TurnRuns(m, turn, true, base);
  }

  /** Unless it is paused, a loop whose turns ask at most `d` apart answers a change
      waiting since `t` by a round asked no later than `d` after it may go. */
  lemma {:induction false} ChangeIsAnsweredInTime(m: Machine, turns: seq<Turn>, base: Duration, d: Duration, t: Instant)
    returns (i: nat)
    requires turns != [] && AtQuestion(m, turns[0]).state.changed == Some(t)
    requires NeverPaused(m, turns, base) && AsksApart(turns, d)
    requires turns[0].askedAt <= MayGo(t, m.last) + d && turns[|turns| - 1].askedAt >= MayGo(t, m.last)
    ensures i < |turns| && |LoopAnswers(m, turns, true, base)| == |turns|
    ensures LoopAnswers(m, turns, true, base)[i] == Round && turns[i].askedAt <= MayGo(t, m.last) + d
    decreases |turns|
  {
    LoopAnswersEach(m, turns, true, base);
    TurnWithAChange(m, turns[0], base, t);
    if TurnAnswer(m, turns[0], true, base) == Round {
      i := 0;
    } else {
      var next, later := AfterTurn(m, turns[0], true, base), turns[1..];
      assert turns[1].askedAt <= turns[1 - 1].askedAt + d;
      forall j | 0 < j < |later| ensures later[j].askedAt <= later[j - 1].askedAt + d {
        assert turns[j + 1].askedAt <= turns[j + 1 - 1].askedAt + d;
      }
      assert AtQuestion(next, later[0]).state.changed == Some(t);
      var j := ChangeIsAnsweredInTime(next, later, base, d, t);
      i := j + 1;
    }
  }

  lemma {:induction false} LoopAnswersEach(m: Machine, turns: seq<Turn>, connects: bool, base: Duration)
    ensures |LoopAnswers(m, turns, connects, base)| == |turns|
    decreases |turns|
  {
    if turns != [] {
      LoopAnswersEach(AfterTurn(m, turns[0], connects, base), turns[1..], connects, base);
    }
  }

  /** So a change the loop takes in is sent in time, whatever it did before. */
  lemma TakenInIsSent(m: Machine, turns: seq<Turn>, base: Duration, d: Duration) returns (i: nat)
    requires turns != [] && m.state.changed.None? && TakesIn(m, turns[0])
    requires NeverPaused(m, turns, base) && AsksApart(turns, d)
    requires var due := MayGo(turns[0].changedAt, m.last);
             turns[0].askedAt <= due + d && turns[|turns| - 1].askedAt >= due
    ensures i < |turns| && |LoopAnswers(m, turns, true, base)| == |turns|
    ensures LoopAnswers(m, turns, true, base)[i] == Round
    ensures turns[i].askedAt <= MayGo(turns[0].changedAt, m.last) + d
  {
    i := ChangeIsAnsweredInTime(m, turns, base, d, turns[0].changedAt);
  }

  // ------------------------------------------------------- a turn, written out

  /** One turn: the file is read; a change is taken in unless the file says a pause;
      the question is put if the machine may dial; the end of what it led to is
      kept; and the snapshot hears of the interval and of any news. */
  lemma TurnMeans(m: Machine, turn: Turn, connects: bool, base: Duration)
    ensures var read := Step(m, Refresh(turn.look, turn.clock), base);
            var takes := turn.folderChanged && !SaysPaused(Read(m, turn), turn.clock);
            var ready := if takes then Step(read, Changed(turn.changedAt), base) else read;
            var ask, after := Ask(turn.askedAt, turn.endedAt), AfterTurn(m, turn, connects, base);
            var answer := TurnAnswer(m, turn, connects, base);
            answer == (if connects then AnswerTo(ready, ask, base) else Wait)
            && after.state == (if connects then Step(ready, ask, base).state else ready.state)
            && after.last == (if answer == Wait then m.last else Some(turn.endedAt))
            && TurnPass(m, turn, connects, base)
               == Pass(turn.pacedAt, Every(Read(m, turn), base), takes || answer != Wait)
  {
    TurnRuns(m, turn, connects, base);
  }

  /** One unpaused turn after a round: another when the interval is over, and
      otherwise either another or nothing kept but the wait. */
  lemma TurnAfterARound(m: Machine, turn: Turn, base: Duration)
    requires m.last.Some? && !SaysPaused(Read(m, turn), turn.clock)
    ensures turn.askedAt >= m.last.value + Every(Read(m, turn), base) ==> TurnAnswer(m, turn, true, base) == Round
    ensures TurnAnswer(m, turn, true, base) != Round ==> AfterTurn(m, turn, true, base).last == m.last
  {
    TurnRuns(m, turn, true, base);
  }

  /** The interval is kept: unless it is paused, a loop whose turns ask at most `d`
      apart asks for its next round no later than `d` past the interval, from the
      end of the last, whatever the interval does below `high`. */
  lemma {:induction false} RoundsKeepTheInterval(m: Machine, turns: seq<Turn>, base: Duration, d: Duration,
                                                        high: Duration)
    returns (i: nat)
    requires turns != [] && m.last.Some? && NeverPaused(m, turns, base) && AsksApart(turns, d)
    requires IntervalsAtMost(m, turns, base, high)
    requires turns[0].askedAt <= m.last.value + high + d && turns[|turns| - 1].askedAt >= m.last.value + high
    ensures i < |turns| && |LoopAnswers(m, turns, true, base)| == |turns|
    ensures LoopAnswers(m, turns, true, base)[i] == Round && turns[i].askedAt <= m.last.value + high + d
    decreases |turns|
  {
    LoopAnswersEach(m, turns, true, base);
    TurnAfterARound(m, turns[0], base);
    if TurnAnswer(m, turns[0], true, base) == Round {
      i := 0;
    } else {
      var next, later := AfterTurn(m, turns[0], true, base), turns[1..];
      assert turns[1].askedAt <= turns[1 - 1].askedAt + d;
      forall j | 0 < j < |later| ensures later[j].askedAt <= later[j - 1].askedAt + d {
        assert turns[j + 1].askedAt <= turns[j + 1 - 1].askedAt + d;
      }
      var j := RoundsKeepTheInterval(next, later, base, d, high);
      i := j + 1;
    }
  }
}
