/** What the steering answers and says, from what happened to it alone: the reads,
    the changes and the asks of a run, and neither its fields nor its tests.

    The promises of `crates/itsanas-cli/src/control.rs`, written out. */
module SteeringHistory {
  import opened Text
  import opened ControlFile
  import opened Steering

  // --------------------------------------------------- what was read

  /** The control last understood; a first read that failed counts as a pause with
      no end. */
  function Known(look: Look, es: seq<Event>): Control {
    LastUnderstood(if look.Some? then look.value else Control(Some(0), None, None, None), es)
  }

  /** Whether a control is a pause at a clock: it has a start, and no end or one to
      come. */
  predicate SaysPaused(c: Control, clock: u64) {
    c.pausedSince.Some? && (c.until.None? || clock < c.until.value)
  }

  predicate Paused(look: Look, clock: u64, es: seq<Event>) {
    SaysPaused(Known(look, es), LastClock(clock, es))
  }

  /** The interval a control asks for, in nanoseconds: at least half a minute and
      at most a day, and the daemon's own when it asks for none. */
  function Every(c: Control, base: Duration): Duration {
    match c.interval
    case None => base
    case Some(n) =>
      if n < 30 then 30_000_000_000 else if n > 86_400 then 86_400_000_000_000 else n * 1_000_000_000
  }

  /** Whether the last read, or the first, failed. */
  predicate LastReadFailed(look: Look, es: seq<Event>) {
    if es == [] then look.None?
    else
      var e := es[|es| - 1];
      if e.Refresh? then e.look.None? else LastReadFailed(look, es[..|es| - 1])
  }

  // ---------------------------------------------------- what was asked

  /** The last "sync now" stamp an ask found in the file, or the start did. */
  function SeenStamp(look: Look, es: seq<Event>): Option<u64> {
    if es == [] then Known(look, es).syncAsked
    else
      var before := es[..|es| - 1];
      if es[|es| - 1].Ask? && Known(look, before).syncAsked.Some? then Known(look, before).syncAsked
      else SeenStamp(look, before)
  }

  /** Whether a pause ended and nothing was asked since. */
  predicate PauseEnded(look: Look, clock: u64, es: seq<Event>) {
    exists i :: 0 <= i < |es| && EndsPause(look, clock, es, i) && NoAskAfter(es, i)
  }

  predicate EndsPause(look: Look, clock: u64, es: seq<Event>, i: nat)
    requires i < |es|
  {
    Paused(look, clock, es[..i]) && !Paused(look, clock, es[..i + 1])
  }

  predicate NoAskAfter(es: seq<Event>, i: nat) {
    forall j :: i < j < |es| ==> !es[j].Ask?
  }

  // -------------------------------------------------- what was answered

  /** What the ask that ends these events was answered. */
  function LastAnswer(look: Look, clock: u64, es: seq<Event>, base: Duration): Next
    requires es != []
  {
    AnswerTo(Run(Start(look, clock), es[..|es| - 1], base), es[|es| - 1], base)
  }

  /** When the last round or publication was over. */
  function LastEnd(look: Look, clock: u64, es: seq<Event>, base: Duration): Option<Instant> {
    if es == [] then None
    else if es[|es| - 1].Ask? && LastAnswer(look, clock, es, base) != Wait then Some(es[|es| - 1].ended)
    else LastEnd(look, clock, es[..|es| - 1], base)
  }

  /** Since when a change waits: the first since the last round. */
  function WaitingSince(look: Look, clock: u64, es: seq<Event>, base: Duration): Option<Instant> {
    if es == [] then None
    else
      var before, e := WaitingSince(look, clock, es[..|es| - 1], base), es[|es| - 1];
      if e.Changed? then if before.Some? then before else Some(e.now)
      else if e.Ask? && LastAnswer(look, clock, es, base) == Round then None
      else before
  }

  // ----------------------------------------------- the history is enough

  lemma OneMore(look: Look, clock: u64, before: seq<Event>, e: Event, base: Duration)
    ensures (before + [e])[..|before + [e]| - 1] == before
    ensures Run(Start(look, clock), before + [e], base) == Step(Run(Start(look, clock), before, base), e, base)
  {
    RunAppend(Start(look, clock), before, [e], base);
    var m := Run(Start(look, clock), before, base);
    assert [e][1..] == [];
    assert Run(m, [e], base) == Step(m, e, base);
  }

  /** The steering holds nothing that the history does not tell. */
  predicate Tells(m: Machine, look: Look, clock: u64, es: seq<Event>, base: Duration) {
    m.state.current == Known(look, es)
    && m.state.honoured == SeenStamp(look, es)
    && m.state.unreadable == LastReadFailed(look, es)
    && m.state.holding == Paused(look, clock, es)
    && m.state.lifted == PauseEnded(look, clock, es)
    && m.state.changed == WaitingSince(look, clock, es, base)
    && m.last == LastEnd(look, clock, es, base)
  }

  lemma PauseEndedStep(look: Look, clock: u64, before: seq<Event>, e: Event)
    ensures var es := before + [e];
            PauseEnded(look, clock, es)
            <==> (PauseEnded(look, clock, before) && !e.Ask?)
                 || (Paused(look, clock, before) && !Paused(look, clock, es))
  {
    hide Paused;
    var es, n := before + [e], |before|;
    assert es[..n] == before && es[..n + 1] == es && es[n] == e;
    forall i | 0 <= i < n ensures EndsPause(look, clock, es, i) == EndsPause(look, clock, before, i) {
      assert es[..i] == before[..i] && es[..i + 1] == before[..i + 1];
    }
    forall i | 0 <= i < n ensures NoAskAfter(es, i) == (NoAskAfter(before, i) && !e.Ask?) {
      assert forall j :: i < j < n ==> es[j] == before[j];
    }
    assert EndsPause(look, clock, es, n) == (Paused(look, clock, before) && !Paused(look, clock, es));
    assert NoAskAfter(es, n);
    if PauseEnded(look, clock, before) && !e.Ask? {
      var i :| 0 <= i < |before| && EndsPause(look, clock, before, i) && NoAskAfter(before, i);
      assert EndsPause(look, clock, es, i) && NoAskAfter(es, i);
    }
  }

  lemma PauseEndsByReading(look: Look, clock: u64, before: seq<Event>, e: Event)
    requires !e.Refresh?
    ensures Paused(look, clock, before + [e]) == Paused(look, clock, before)
  {
    assert (before + [e])[..|before + [e]| - 1] == before;
  }

  lemma {:induction false} HistoryTells(look: Look, clock: u64, es: seq<Event>, base: Duration)
    ensures Tells(Run(Start(look, clock), es, base), look, clock, es, base)
  {
    if es != [] {
      var before, e := es[..|es| - 1], es[|es| - 1];
      assert es == before + [e];
      HistoryTells(look, clock, before, base);
      OneMore(look, clock, before, e, base);
      TellsOneMore(Run(Start(look, clock), before, base), look, clock, before, e, base);
      hide Run, Step, Tells;
    }
  }

  lemma TellsOneMore(m: Machine, look: Look, clock: u64, before: seq<Event>, e: Event, base: Duration)
    requires Tells(m, look, clock, before, base)
    requires Run(Start(look, clock), before, base) == m
    ensures Tells(Step(m, e, base), look, clock, before + [e], base)
  {
    hide PauseEnded, Run;
    assert (before + [e])[..|before + [e]| - 1] == before;
    PauseEndedStep(look, clock, before, e);
    if !e.Refresh? {
      PauseEndsByReading(look, clock, before, e);
    }
  }

  // ------------------------------------------------------- the promises

  /** Why an ask at `now` is answered by more than waiting: a click, an ended pause,
      no round yet, the interval over, or a change that settled. */
  predicate Reason(look: Look, clock: u64, es: seq<Event>, now: Instant, base: Duration) {
    var c, last := Known(look, es), LastEnd(look, clock, es, base);
    var since := WaitingSince(look, clock, es, base);
    (c.syncAsked.Some? && c.syncAsked != SeenStamp(look, es))
    || PauseEnded(look, clock, es)
    || last.None?
    || now >= last.value + Every(c, base)
    || (since.Some? && now >= since.value + 5_000_000_000
        && now >= last.value + Min(30_000_000_000, Every(c, base)))
  }

  /** At every ask of every run: nothing without a reason, and with one a round, or
      a publication while paused. */
  lemma TheAnswer(look: Look, clock: u64, es: seq<Event>, ask: Event, base: Duration)
    requires ask.Ask?
    ensures AnswerTo(Run(Start(look, clock), es, base), ask, base)
         == if !Reason(look, clock, es, ask.now, base) then Wait
            else if Paused(look, clock, es) then Publish
            else Round
  {
    HistoryTells(look, clock, es, base);
    hide Known, Paused, PauseEnded, SeenStamp, LastEnd, WaitingSince, Run, Start;
  }

  /** The interval is kept: an ask at or past the end of the last round plus the
      interval the file asks for, half a minute at least and a day at most, is
      answered, whatever else happened. */
  lemma IntervalBringsARound(look: Look, clock: u64, es: seq<Event>, ask: Event, base: Duration)
    requires ask.Ask? && LastEnd(look, clock, es, base).Some?
    requires ask.now >= LastEnd(look, clock, es, base).value + Every(Known(look, es), base)
    ensures AnswerTo(Run(Start(look, clock), es, base), ask, base)
         == if Paused(look, clock, es) then Publish else Round
  {
    TheAnswer(look, clock, es, ask, base);
    hide Run, Start, AnswerTo;
  }

  /** The first ask after a pause ended is a round, at once. */
  lemma EndedPauseBringsARound(look: Look, clock: u64, es: seq<Event>, ask: Event, base: Duration)
    requires ask.Ask? && PauseEnded(look, clock, es) && !Paused(look, clock, es)
    ensures AnswerTo(Run(Start(look, clock), es, base), ask, base) == Round
  {
    TheAnswer(look, clock, es, ask, base);
    hide Run, Start, AnswerTo;
  }

  /** What a read says of the pause, from the history. */
  function PauseSaid(look: Look, clock: u64, before: seq<Event>, e: Event): seq<Word> {
    var was, now := Paused(look, clock, before), Paused(look, clock, before + [e]);
    if now && !was then [PausedNow]
    else if was && !now then [if Known(look, before + [e]).pausedSince.Some? then PauseOver else Resumed]
    else []
  }

  /** What a read says of the interval, or of not being understood. */
  function ReadSaid(look: Look, before: seq<Event>, newer: Look): seq<Word> {
    if newer.None? then if LastReadFailed(look, before) then [] else [CannotUnderstand]
    else if Known(look, before).interval == newer.value.interval then []
    else if newer.value.interval.None? then [OwnInterval]
    else [EveryNow(Every(newer.value, 0))]
  }

  /** Every line of the log: a pause begun or ended, an interval changed, a file that
      could be read before and now cannot. */
  lemma TheLog(look: Look, clock: u64, es: seq<Event>, e: Event, base: Duration)
    requires e.Refresh?
    ensures RefreshWords(Run(Start(look, clock), es, base).state, e.look, e.clock)
         == PauseSaid(look, clock, es, e) + ReadSaid(look, es, e.look)
  {
    HistoryTells(look, clock, es, base);
    HistoryTells(look, clock, es + [e], base);
    OneMore(look, clock, es, e, base);
    hide Known, Paused, PauseEnded, SeenStamp, LastEnd, WaitingSince, Run, Start, LastReadFailed;
  }
}
