/** The daemon's steering: what `Steering` of `crates/itsanas-cli/src/control.rs`
    decides each time round the loop, and what holds over whole runs of it.

    Instants and durations are whole nanoseconds, as `Instant` and `Duration`
    count them; the wall clock is Unix seconds. */
module Steering {
  import opened Arithmetic
  import Durations
  import opened Text
  import opened ControlFile

  type Instant = nat
  type Duration = nat

  const SECOND: Duration := 1_000_000_000
  const MIN_INTERVAL: Duration := Durations.MIN_INTERVAL * SECOND
  const MAX_INTERVAL: Duration := Durations.MAX_INTERVAL * SECOND
  const SETTLE: Duration := 5 * SECOND

  datatype Next = Wait | Publish | Round

  /** What a refresh has to say, for the log. */
  datatype Word = PausedNow | PauseOver | Resumed | EveryNow(interval: Duration) | OwnInterval | CannotUnderstand

  /** A read of the control file: understood, or not. */
  type Look = Option<Control>

  datatype State = State(
    current: Control,
    honoured: Option<u64>,
    unreadable: bool,
    holding: bool,
    lifted: bool,
    changed: Option<Instant>)

  // ------------------------------------------------ what one call does

  function Min(a: nat, b: nat): nat {
    if a < b then a else b
  }

  function Clamp(seconds: Option<u64>): Option<Duration> {
    match seconds
    case None => None
    case Some(n) =>
      if n * SECOND < MIN_INTERVAL then Some(MIN_INTERVAL)
      else if n * SECOND > MAX_INTERVAL then Some(MAX_INTERVAL)
      else Some(n * SECOND)
  }

  /** What a daemon starts from when it has nothing it could read: paused. */
  const UNREAD := DEFAULT.(pausedSince := Some(0))

  function Started(look: Look, clock: u64): State {
    var current := if look.Some? then look.value else UNREAD;
    State(current, current.syncAsked, look.None?, PauseHolds(current, clock), false, None)
  }

  function Refreshed(s: State, look: Look, clock: u64): State {
    var current := if look.Some? then look.value else s.current;
    var holds := PauseHolds(current, clock);
    s.(current := current, unreadable := look.None?, holding := holds,
    lifted := s.lifted || (s.holding && !holds))
  }

  function IntervalWords(s: State, newer: Control): seq<Word> {
    if s.current.interval == newer.interval then []
    else if newer.interval.Some? then [EveryNow(Clamp(newer.interval).value)]
    else [OwnInterval]
  }

  function PauseWords(before: bool, after: Control, holds: bool): seq<Word> {
    if !before && holds then [PausedNow]
    else if before && !holds then [if after.pausedSince.Some? then PauseOver else Resumed]
    else []
  }

  function RefreshWords(s: State, look: Look, clock: u64): seq<Word> {
    var after := Refreshed(s, look, clock);
    PauseWords(s.holding, after.current, after.holding)
    + (if look.Some? then IntervalWords(s, look.value) else if s.unreadable then [] else [CannotUnderstand])
  }

  function InForce(s: State, base: Duration): Duration {
    var asked := Clamp(s.current.interval);
    if asked.Some? then asked.value else base
  }

  function ChangedAt(s: State, now: Instant): State {
    if s.changed.Some? then s else s.(changed := Some(now))
  }

  /** A "sync now" not acted on yet. */
  predicate Clicked(s: State) {
    s.current.syncAsked.Some? && s.current.syncAsked != s.honoured
  }

  predicate Early(s: State, now: Instant, last: Option<Instant>, base: Duration) {
    s.changed.Some? && now >= s.changed.value + SETTLE
    && (last.None? || now >= last.value + Min(MIN_INTERVAL, InForce(s, base)))
  }

  predicate Due(s: State, now: Instant, last: Option<Instant>, base: Duration) {
    Clicked(s) || s.lifted || Early(s, now, last, base)
    || last.None? || now >= last.value + InForce(s, base)
  }

  function Answer(s: State, now: Instant, last: Option<Instant>, base: Duration): Next {
    if !Due(s, now, last, base) then Wait else if s.holding then Publish else Round
  }

  function Asked(s: State, now: Instant, last: Option<Instant>, base: Duration): State {
    s.(honoured := if Clicked(s) then s.current.syncAsked else s.honoured,
    lifted := false,
    changed := if Answer(s, now, last, base) == Round then None else s.changed)
  }

  // --------------------------------------------------------- the object

  class Steering {
    var current: Control
    var honoured: Option<u64>
    var unreadable: bool
    var holding: bool
    var lifted: bool
    var changed: Option<Instant>

    ghost function View(): State
      reads this
    {
      State(current, honoured, unreadable, holding, lifted, changed)
    }

    constructor Start(look: Look, clock: u64)
      ensures View() == Started(look, clock)
    {
      var start := if look.Some? then look.value else UNREAD;
      current := start;
      honoured := start.syncAsked;
      unreadable := look.None?;
      holding := PauseHolds(start, clock);
      lifted := false;
      changed := None;
    }

    method Refresh(look: Look, clock: u64) returns (said: seq<Word>)
      modifies this
      ensures View() == Refreshed(old(View()), look, clock)
      ensures said == RefreshWords(old(View()), look, clock)
    {
      said := [];
      match look {
        case Some(newer) =>
          unreadable := false;
          if current.interval != newer.interval {
            said := said + [if newer.interval.Some? then EveryNow(Clamp(newer.interval).value) else OwnInterval];
          }
          current := newer;
        case None =>
          if !unreadable {
            unreadable := true;
            said := said + [CannotUnderstand];
          }
      }
      var holds := PauseHolds(current, clock);
      if !holding && holds {
        said := [PausedNow] + said;
      } else if holding && !holds && current.pausedSince.Some? {
        said := [PauseOver] + said;
      } else if holding && !holds {
        said := [Resumed] + said;
      }
      lifted := lifted || (holding && !holds);
      holding := holds;
    }

    method ChangedHere(now: Instant)
      modifies this`changed
      ensures View() == ChangedAt(old(View()), now)
    {
      if changed.None? {
        changed := Some(now);
      }
    }

    method Decide(now: Instant, last: Option<Instant>, base: Duration) returns (next: Next)
      modifies this`honoured, this`lifted, this`changed
      ensures next == Answer(old(View()), now, last, base)
      ensures View() == Asked(old(View()), now, last, base)
    {
      var every := match Clamp(current.interval) { case Some(chosen) => chosen case None => base };
      var asked := current.syncAsked.Some? && current.syncAsked != honoured;
      if asked {
        honoured := current.syncAsked;
      }
      var wasLifted := lifted;
      lifted := false;
      var early := changed.Some? && now >= changed.value + SETTLE
                   && (last.None? || now >= last.value + Min(MIN_INTERVAL, every));
      var due := asked || wasLifted || early || last.None? || now >= last.value + every;
      if !due {
        return Wait;
      }
      if holding {
        return Publish;
      }
      changed := None;
      next := Round;
    }
  }

  // --------------------------------------------------------------- runs

  /** One thing that happens to the steering. An ask carries the instant of the
      question and the instant at which the round or the publication it led to
      was over: what the loop keeps as the end of the last round. */
  datatype Event =
    | Refresh(look: Look, clock: u64)
    | Changed(now: Instant)
    | Ask(now: Instant, ended: Instant)

  /** The steering and the end of its last round. */
  datatype Machine = Machine(state: State, last: Option<Instant>)

  function Start(look: Look, clock: u64): Machine {
    Machine(Started(look, clock), None)
  }

  function AnswerTo(m: Machine, e: Event, base: Duration): Next {
    if e.Ask? then Answer(m.state, e.now, m.last, base) else Wait
  }

  function Step(m: Machine, e: Event, base: Duration): Machine {
    match e
    case Refresh(look, clock) => m.(state := Refreshed(m.state, look, clock))
    case Changed(now) => m.(state := ChangedAt(m.state, now))
    case Ask(now, ended) =>
      Machine(Asked(m.state, now, m.last, base),
              if Answer(m.state, now, m.last, base) == Wait then m.last else Some(ended))
  }

  function Run(m: Machine, es: seq<Event>, base: Duration): Machine
    decreases |es|
  {
    if es == [] then m else Run(Step(m, es[0], base), es[1..], base)
  }

  /** The answers of a run, one an ask. */
  function Answers(m: Machine, es: seq<Event>, base: Duration): seq<Next>
    decreases |es|
  {
    if es == [] then []
    else (if es[0].Ask? then [AnswerTo(m, es[0], base)] else []) + Answers(Step(m, es[0], base), es[1..], base)
  }

  lemma {:induction false} RunAppend(m: Machine, a: seq<Event>, b: seq<Event>, base: Duration)
    ensures Run(m, a + b, base) == Run(Run(m, a, base), b, base)
    ensures Answers(m, a + b, base) == Answers(m, a, base) + Answers(Run(m, a, base), b, base)
    decreases |a|
  {
    if a == [] {
      assert a + b == b;
    } else {
      assert (a + b)[0] == a[0] && (a + b)[1..] == a[1..] + b;
      RunAppend(Step(m, a[0], base), a[1..], b, base);
    }
  }

  // --------------------------------------- never a round while paused

  /** The control last understood, from the reads alone. */
  function LastUnderstood(start: Control, es: seq<Event>): Control {
    if es == [] then start
    else
      var e := es[|es| - 1];
      if e.Refresh? && e.look.Some? then e.look.value else LastUnderstood(start, es[..|es| - 1])
  }

  /** The clock last given. */
  function LastClock(start: u64, es: seq<Event>): u64 {
    if es == [] then start
    else
      var e := es[|es| - 1];
      if e.Refresh? then e.clock else LastClock(start, es[..|es| - 1])
  }

  /** In every run the steering's control is the last one understood, and its
      pause is that control's at the clock last given. */
  lemma {:induction false} PauseFollowsTheFile(look: Look, clock: u64, es: seq<Event>, base: Duration)
    ensures var s := Run(Start(look, clock), es, base).state;
            var start := if look.Some? then look.value else UNREAD;
            s.current == LastUnderstood(start, es)
            && s.holding == PauseHolds(LastUnderstood(start, es), LastClock(clock, es))
  {
    if es != [] {
      var before := es[..|es| - 1];
      PauseFollowsTheFile(look, clock, before, base);
      RunAppend(Start(look, clock), before, [es[|es| - 1]], base);
      assert es == before + [es[|es| - 1]];
      var m := Run(Start(look, clock), before, base);
      assert Run(m, [es[|es| - 1]], base) == Step(m, es[|es| - 1], base);
    }
  }

  /** A full round is answered only when the file last understood holds no pause
      at the clock last given, and a publication only when it does: at every
      ask of every run. */
  lemma NoRoundWhilePaused(look: Look, clock: u64, es: seq<Event>, ask: Event, base: Duration)
    ensures var start := if look.Some? then look.value else UNREAD;
            var paused := PauseHolds(LastUnderstood(start, es), LastClock(clock, es));
            var answer := AnswerTo(Run(Start(look, clock), es, base), ask, base);
            (answer == Round ==> !paused) && (answer == Publish ==> paused)
  {
    PauseFollowsTheFile(look, clock, es, base);
  }

  predicate NoneUnderstood(es: seq<Event>) {
    forall i :: 0 <= i < |es| ==> es[i].Refresh? ==> es[i].look.None?
  }

  lemma {:induction false} UnreadKeeps(start: Control, es: seq<Event>)
    requires NoneUnderstood(es)
    ensures LastUnderstood(start, es) == start
  {
    if es != [] {
      UnreadKeeps(start, es[..|es| - 1]);
    }
  }

  /** Whatever happened before, once an open-ended pause is the file last
      understood, reads that fail never lift it: no round is answered until one
      succeeds, whatever the clock says and however long it lasts. */
  lemma OpenPauseOutlivesFailedReads(look: Look, clock: u64, before: seq<Event>, es: seq<Event>, ask: Event,
                                     base: Duration)
    requires var start := if look.Some? then look.value else UNREAD;
             LastUnderstood(start, before).pausedSince.Some? && LastUnderstood(start, before).until.None?
    requires NoneUnderstood(es)
    ensures AnswerTo(Run(Start(look, clock), before + es, base), ask, base) != Round
  {
    var start := if look.Some? then look.value else UNREAD;
    PauseFollowsTheFile(look, clock, before + es, base);
    UnderstoodAppend(start, before, es);
    UnreadKeeps(LastUnderstood(start, before), es);
  }

  lemma {:induction false} UnderstoodAppend(start: Control, a: seq<Event>, b: seq<Event>)
    ensures LastUnderstood(start, a + b) == LastUnderstood(LastUnderstood(start, a), b)
  {
    if b == [] {
      assert a + b == a;
    } else {
      assert (a + b)[..|a + b| - 1] == a + b[..|b| - 1];
      UnderstoodAppend(start, a, b[..|b| - 1]);
    }
  }

  /** A daemon whose first read failed syncs nothing before one succeeds. */
  lemma UnreadStartNeverSyncs(clock: u64, es: seq<Event>, ask: Event, base: Duration)
    requires NoneUnderstood(es)
    ensures AnswerTo(Run(Start(None, clock), es, base), ask, base) != Round
  {
    OpenPauseOutlivesFailedReads(None, clock, [], es, ask, base);
    assert [] + es == es;
  }

  // ----------------------------------------------- the log tells the pause

  function Words(m: Machine, es: seq<Event>, base: Duration): seq<Word>
    decreases |es|
  {
    if es == [] then []
    else
      (if es[0].Refresh? then RefreshWords(m.state, es[0].look, es[0].clock) else [])
      + Words(Step(m, es[0], base), es[1..], base)
  }

  /** What somebody reading the log believes, starting from `paused`. */
  function Believed(paused: bool, log: seq<Word>): bool {
    if log == [] then paused
    else
      var w := log[|log| - 1];
      if w.PausedNow? then true
      else if w.PauseOver? || w.Resumed? then false
      else Believed(paused, log[..|log| - 1])
  }

  lemma {:induction false} BelievedAppend(paused: bool, a: seq<Word>, b: seq<Word>)
    ensures Believed(paused, a + b) == Believed(Believed(paused, a), b)
  {
    if b == [] {
      assert a + b == a;
    } else {
      assert (a + b)[..|a + b| - 1] == a + b[..|b| - 1];
      BelievedAppend(paused, a, b[..|b| - 1]);
    }
  }

  lemma RefreshSaysThePause(s: State, look: Look, clock: u64)
    ensures Believed(s.holding, RefreshWords(s, look, clock)) == Refreshed(s, look, clock).holding
  {
    var after := Refreshed(s, look, clock);
    var pause := PauseWords(s.holding, after.current, after.holding);
    var rest := if look.Some? then IntervalWords(s, look.value) else if s.unreadable then [] else [CannotUnderstand];
    BelievedAppend(s.holding, pause, rest);
    assert |rest| <= 1;
    assert rest == [] || rest[..|rest| - 1] == [];
    assert pause == [] || pause[..|pause| - 1] == [];
  }

  /** The log alone says whether syncing is paused: after any run, the last
      pause or resumption said, or the state at the start, is the state. */
  lemma {:induction false} LogTellsThePause(m: Machine, es: seq<Event>, base: Duration)
    ensures Believed(m.state.holding, Words(m, es, base)) == Run(m, es, base).state.holding
    decreases |es|
  {
    if es != [] {
      var next := Step(m, es[0], base);
      LogTellsThePause(next, es[1..], base);
      if es[0].Refresh? {
        RefreshSaysThePause(m.state, es[0].look, es[0].clock);
        BelievedAppend(m.state.holding, RefreshWords(m.state, es[0].look, es[0].clock), Words(next, es[1..], base));
      } else {
        assert [] + Words(next, es[1..], base) == Words(next, es[1..], base);
      }
    }
  }

  // ------------------------------------------- no local change is lost

  /** A pending change stays, at its own instant, through every run in which no
      round is answered: further changes, reads, publications and pauses leave
      its deadline alone. */
  lemma {:induction false} ChangeWaitsForARound(m: Machine, es: seq<Event>, base: Duration)
    requires m.state.changed.Some?
    requires Round !in Answers(m, es, base)
    ensures Run(m, es, base).state.changed == m.state.changed
    decreases |es|
  {
    if es != [] {
      if es[0].Ask? {
        assert AnswerTo(m, es[0], base) == Answers(m, es, base)[0];
      }
      ChangeWaitsForARound(Step(m, es[0], base), es[1..], base);
    }
  }

  /** With no further change, a pending one is gone after a run exactly when some
      ask of it was answered by a round. */
  lemma {:induction false} OnlyARoundTakesTheChange(m: Machine, es: seq<Event>, base: Duration)
    requires m.state.changed.Some? && forall i :: 0 <= i < |es| ==> !es[i].Changed?
    ensures Run(m, es, base).state.changed == if Round in Answers(m, es, base) then None else m.state.changed
    decreases |es|
  {
    if Round !in Answers(m, es, base) {
      ChangeWaitsForARound(m, es, base);
    } else {
      var next, later := Step(m, es[0], base), es[1..];
      if AnswerTo(m, es[0], base) == Round {
        NoChangeStaysNone(next, later, base);
      } else {
        OnlyARoundTakesTheChange(next, later, base);
        var first := if es[0].Ask? then [AnswerTo(m, es[0], base)] else [];
        assert Answers(m, es, base) == first + Answers(next, later, base);
      }
    }
  }

  lemma {:induction false} NoChangeStaysNone(m: Machine, es: seq<Event>, base: Duration)
    requires m.state.changed.None? && forall i :: 0 <= i < |es| ==> !es[i].Changed?
    ensures Run(m, es, base).state.changed.None?
    decreases |es|
  {
    if es != [] {
      NoChangeStaysNone(Step(m, es[0], base), es[1..], base);
    }
  }

  /** A change made at `t` is sent by the first unpaused ask at or after both
      `SETTLE` past it and `MIN_INTERVAL` past the last round: whatever happened
      in between, if nothing sent it before. */
  lemma ChangeIsSent(m: Machine, t: Instant, es: seq<Event>, ask: Event, base: Duration)
    requires m.state.changed.None? && ask.Ask?
    requires var after := Step(m, Changed(t), base);
             Round !in Answers(after, es, base)
             && var now := Run(after, es, base);
                !now.state.holding
                && ask.now >= t + SETTLE
                && (now.last.None? || ask.now >= now.last.value + MIN_INTERVAL)
    ensures AnswerTo(Run(Step(m, Changed(t), base), es, base), ask, base) == Round
  {
    ChangeWaitsForARound(Step(m, Changed(t), base), es, base);
  }

  // ------------------------------------------------------ the rate bound

  /** Whether the event comes at or after `t` and takes no negative time. */
  predicate Follows(t: Instant, e: Event) {
    match e
    case Refresh(_, _) => true
    case Changed(now) => t <= now
    case Ask(now, ended) => t <= now <= ended
  }

  /** The latest instant known once the event is over. */
  function Later(t: Instant, e: Event): Instant {
    match e
    case Refresh(_, _) => t
    case Changed(now) => now
    case Ask(_, ended) => ended
  }

  /** Instants never go back, from `t` on. */
  predicate Timed(t: Instant, es: seq<Event>)
    decreases |es|
  {
    es == [] || (Follows(t, es[0]) && Timed(Later(t, es[0]), es[1..]))
  }

  function EndOf(t: Instant, es: seq<Event>): Instant
    decreases |es|
  {
    if es == [] then t else EndOf(Later(t, es[0]), es[1..])
  }

  lemma {:induction false} EndIsLater(t: Instant, es: seq<Event>)
    requires Timed(t, es)
    ensures t <= EndOf(t, es)
    decreases |es|
  {
    if es != [] {
      EndIsLater(Later(t, es[0]), es[1..]);
    }
  }

  function Count(b: bool): nat {
    if b then 1 else 0
  }

  /** How often the machine went out to the network: answers other than Wait. */
  function Dials(m: Machine, es: seq<Event>, base: Duration): nat
    decreases |es|
  {
    if es == [] then 0
    else Count(AnswerTo(m, es[0], base) != Wait) + Dials(Step(m, es[0], base), es[1..], base)
  }

  /** Refreshes that changed the "sync now" stamp. */
  function Clicks(m: Machine, es: seq<Event>, base: Duration): nat
    decreases |es|
  {
    if es == [] then 0
    else
      var next := Step(m, es[0], base);
      Count(next.state.current.syncAsked != m.state.current.syncAsked) + Clicks(next, es[1..], base)
  }

  /** Refreshes that ended a pause. */
  function Lifts(m: Machine, es: seq<Event>, base: Duration): nat
    decreases |es|
  {
    if es == [] then 0
    else
      var next := Step(m, es[0], base);
      Count(m.state.holding && !next.state.holding) + Lifts(next, es[1..], base)
  }

  /** Clicks and ended pauses still to be acted on. */
  function Pending(s: State): nat {
    Count(Clicked(s)) + Count(s.lifted)
  }

  /** The dials no click and no ended pause accounts for. */
  function Unasked(m: Machine, es: seq<Event>, base: Duration): int {
    Dials(m, es, base) - Pending(m.state) - Clicks(m, es, base) - Lifts(m, es, base)
  }

  /** The shortest time between two dials nobody asked for. */
  function Gap(base: Duration): Duration {
    Min(MIN_INTERVAL, base)
  }

  /** A dial that no pending click or ended pause accounts for. */
  predicate Free(m: Machine, e: Event, base: Duration) {
    AnswerTo(m, e, base) != Wait && Pending(m.state) == 0
  }

  /** One event's books: what it leaves pending, plus what it dialled, is
      covered by what was pending, what it added, and a free dial. */
  lemma StepAccounts(m: Machine, e: Event, base: Duration)
    ensures var next := Step(m, e, base);
            Pending(next.state) + Count(AnswerTo(m, e, base) != Wait)
            <= Pending(m.state) + Count(Free(m, e, base))
            + Count(next.state.current.syncAsked != m.state.current.syncAsked)
            + Count(m.state.holding && !next.state.holding)
  {
  }

  /** Whatever the file's interval says, a free dial waits out the gap. */
  lemma FreeDialWaits(m: Machine, t: Instant, e: Event, base: Duration)
    requires m.last.Some? && m.last.value <= t && Follows(t, e)
    ensures var last := Step(m, e, base).last;
            last.Some? && m.last.value + (if Free(m, e, base) then Gap(base) else 0) <= last.value <= Later(t, e)
  {
  }

  /** From any state of the steering, over any timed run, the dials beyond the
      clicks and the ended pauses are a gap apart. */
  lemma {:induction false} UnaskedDialsAreSpaced(m: Machine, t: Instant, es: seq<Event>, base: Duration)
    requires m.last.Some? && m.last.value <= t && Timed(t, es)
    ensures Unasked(m, es, base) * Gap(base) <= EndOf(t, es) - m.last.value
    decreases |es|
  {
    if es == [] {
      MulMono(Unasked(m, es, base), 0, Gap(base));
    } else {
      var next := Step(m, es[0], base);
      StepAccounts(m, es[0], base);
      FreeDialWaits(m, t, es[0], base);
      UnaskedDialsAreSpaced(next, Later(t, es[0]), es[1..], base);
      OneMore(Unasked(m, es, base), Unasked(next, es[1..], base), Free(m, es[0], base), Gap(base));
    }
  }

  lemma OneMore(u: int, v: int, free: bool, g: nat)
    requires u <= v + Count(free)
    ensures u * g <= v * g + if free then g else 0
  {
    MulMono(u, v + Count(free), g);
  }

  /** The rate bound, for every start and every timed run of it: the dials are
      at most one, plus one per click, plus one per ended pause, plus the
      length of the run over the gap. With a base of at least half a minute the
      gap is half a minute, whatever interval the file asks for and however
      often the folder changes. */
  lemma RateBound(look: Look, clock: u64, t: Instant, es: seq<Event>, base: Duration)
    requires base > 0 && Timed(t, es)
    ensures var m := Start(look, clock);
            Dials(m, es, base) <= 1 + Clicks(m, es, base) + Lifts(m, es, base) + (EndOf(t, es) - t) / Gap(base)
  {
    var m := Start(look, clock);
    EndIsLater(t, es);
    RateFrom(m, t, es, base);
    var extra := Dials(m, es, base) - 1 - Clicks(m, es, base) - Lifts(m, es, base);
    DivBound(extra, Gap(base), EndOf(t, es) - t);
  }

  lemma {:induction false} RateFrom(m: Machine, t: Instant, es: seq<Event>, base: Duration)
    requires m.last.None? && Timed(t, es)
    ensures (Unasked(m, es, base) - 1) * Gap(base) <= EndOf(t, es) - t
    decreases |es|
  {
    EndIsLater(t, es);
    if es == [] {
      MulMono(Unasked(m, es, base) - 1, 0, Gap(base));
    } else {
      var next := Step(m, es[0], base);
      StepAccounts(m, es[0], base);
      if es[0].Ask? {
        UnaskedDialsAreSpaced(next, es[0].ended, es[1..], base);
        MulMono(Unasked(m, es, base) - 1, Unasked(next, es[1..], base), Gap(base));
      } else {
        RateFrom(next, Later(t, es[0]), es[1..], base);
        MulMono(Unasked(m, es, base) - 1, Unasked(next, es[1..], base) - 1, Gap(base));
      }
    }
  }

  // --------------------------------------------- one click is one round

  /** Every read that succeeds shows this "sync now" stamp. */
  predicate StampStays(stamp: Option<u64>, es: seq<Event>) {
    forall i :: 0 <= i < |es| && es[i].Refresh? && es[i].look.Some? ==> es[i].look.value.syncAsked == stamp
  }

  lemma {:induction false} NoFurtherClick(m: Machine, es: seq<Event>, base: Duration)
    requires StampStays(m.state.current.syncAsked, es)
    ensures Clicks(m, es, base) == 0
    decreases |es|
  {
    if es != [] {
      var stamp := m.state.current.syncAsked;
      forall i | 0 <= i < |es[1..]| && es[1..][i].Refresh? && es[1..][i].look.Some?
        ensures es[1..][i].look.value.syncAsked == stamp
      {
        assert es[1..][i] == es[i + 1];
      }
      NoFurtherClick(Step(m, es[0], base), es[1..], base);
    }
  }

  /** A stamp not acted on yet is answered at the next ask, by a round or, paused,
      by a publication; and however long it then stays in the file, what follows
      dials no more than the gap and the ended pauses allow. */
  lemma OneClickIsOneRound(m: Machine, click: Control, clock: u64, ask: Event, es: seq<Event>, base: Duration)
    requires click.syncAsked.Some? && click.syncAsked != m.state.honoured
    requires ask.Ask? && Timed(ask.ended, es) && StampStays(click.syncAsked, es)
    ensures var shown := Step(m, Refresh(Some(click), clock), base);
            var done := Step(shown, ask, base);
            AnswerTo(shown, ask, base) == (if PauseHolds(click, clock) then Publish else Round)
            && (Dials(done, es, base) - Lifts(done, es, base)) * Gap(base) <= EndOf(ask.ended, es) - ask.ended
  {
    var done := Step(Step(m, Refresh(Some(click), clock), base), ask, base);
    NoFurtherClick(done, es, base);
    UnaskedDialsAreSpaced(done, ask.ended, es, base);
  }
}
