/** What can happen next to the phone's pages, from what has happened alone: the
    runs of `crates/itsanas-android/src/lib.rs` and `host.rs`, told event by event. */
module PageHistory {
  import opened Pages
  import opened Text

  /** Whether the event is a step of that call. */
  predicate IsBy(e: Event, c: nat) {
    match e
    case Began(caller, _) => caller == c
    case Bumped(caller) => caller == c
    case Took(caller) => caller == c
    case Told(caller) => caller == c
    case GaveUp(caller) => caller == c
    case Issued(caller, _) => caller == c
    case Published(caller, _) => caller == c
    case Spawned(caller, _) => caller == c
    case Ended(_) => false
    case Checked(_, _) => false
    case Asked(_, _) => false
  }

  /** The last step of the call. */
  function LastBy(trace: seq<Event>, c: nat): Option<Event> {
    if trace == [] then None
    else
      var e := trace[|trace| - 1];
      if IsBy(e, c) then Some(e) else LastBy(trace[..|trace| - 1], c)
  }

  /** Whether the call, when it last began, was one to start a page. */
  predicate ToStart(trace: seq<Event>, c: nat) {
    trace != []
    && var e := trace[|trace| - 1];
       if e.Began? && e.caller == c then e.starting else ToStart(trace[..|trace| - 1], c)
  }

  /** The page in the slot: the last one put there, unless it was taken since. */
  function InTheSlot(trace: seq<Event>): Option<nat> {
    if trace == [] then None
    else
      var e := trace[|trace| - 1];
      if e.Published? then Some(e.page) else if e.Took? then None else InTheSlot(trace[..|trace| - 1])
  }

  /** What the call took out of the slot when it last took. */
  function TakenBy(trace: seq<Event>, c: nat): Option<nat> {
    if trace == [] then None
    else
      var before, e := trace[..|trace| - 1], trace[|trace| - 1];
      if e == Took(c) then InTheSlot(before) else TakenBy(before, c)
  }

  /** The last that was seen of the page's thread. */
  function LastOfThread(trace: seq<Event>, n: nat): Option<Event> {
    if trace == [] then None
    else
      var e := trace[|trace| - 1];
      if (e.Spawned? || e.Ended? || e.Checked?) && e.page == n then Some(e)
      else LastOfThread(trace[..|trace| - 1], n)
  }

  predicate WasIssued(trace: seq<Event>, n: nat) {
    exists i :: 0 <= i < |trace| && trace[i].Issued? && trace[i].page == n
  }

  /** How often the counter was moved. */
  function Moves(trace: seq<Event>): nat {
    if trace == [] then 0
    else Moves(trace[..|trace| - 1]) + if trace[|trace| - 1].Bumped? || trace[|trace| - 1].Issued? then 1 else 0
  }

  /** Whether a call is over, or never began. */
  predicate Idle(trace: seq<Event>, c: nat) {
    match LastBy(trace, c)
    case None => true
    case Some(e) => e.GaveUp? || e.Spawned? || (e.Told? && !ToStart(trace, c))
  }

  /** Whether the event can be the next one. A call moves the counter, takes the
      slot, tells the page it took, and if it is to start one takes the next number,
      fills the slot and spawns the thread, or gives up on the way; a thread that
      ended looks once, and finds its own number exactly if it was the last; so does
      an engine that asks. */
  predicate MayFollow(trace: seq<Event>, e: Event) {
    match e
    case Began(c, _) => Idle(trace, c)
    case Bumped(c) => var last := LastBy(trace, c); last.Some? && last.value.Began?
    case Took(c) => LastBy(trace, c) == Some(Bumped(c))
    case Told(c) => LastBy(trace, c) == Some(Took(c))
    case Issued(c, n) => LastBy(trace, c) == Some(Told(c)) && ToStart(trace, c) && n == Moves(trace) + 1
    case Published(c, n) => LastBy(trace, c) == Some(Issued(c, n))
    case Spawned(c, n) => LastBy(trace, c) == Some(Published(c, n))
    case GaveUp(c) =>
      var last := LastBy(trace, c);
      last.Some? && (last.value.Issued? || last.value.Published? || (last.value.Told? && ToStart(trace, c)))
    case Ended(n) => var last := LastOfThread(trace, n); last.Some? && last.value.Spawned?
    case Checked(n, said) => LastOfThread(trace, n) == Some(Ended(n)) && (said <==> Moves(trace) == n)
    case Asked(engine, allowed) =>
      (engine.Some? ==> WasIssued(trace, engine.value))
      && (allowed <==> engine.None? || Moves(trace) == engine.value)
  }

  // ------------------------------------------------ what the state shows

  /** Where a call is, from its last step. */
  predicate ShowsCall(trace: seq<Event>, s: State, c: nat) {
    match LastBy(trace, c)
    case None => c !in s.callers
    case Some(e) =>
      match e
      case Began(_, _) => IsAt(s, c, Bumping(ToStart(trace, c)))
      case Bumped(_) => IsAt(s, c, Taking(ToStart(trace, c)))
      case Took(_) => IsAt(s, c, Telling(ToStart(trace, c), TakenBy(trace, c)))
      case Told(_) => if ToStart(trace, c) then IsAt(s, c, Issuing) else c !in s.callers
      case Issued(_, n) => IsAt(s, c, Binding(n))
      case Published(_, n) => IsAt(s, c, Spawning(n))
      case _ => c !in s.callers
  }

  predicate ShowsThread(trace: seq<Event>, s: State, n: nat) {
    match LastOfThread(trace, n)
    case None => n !in s.threads
    case Some(e) =>
      n in s.threads && s.threads[n] == if e.Spawned? then Serving else if e.Ended? then Checking else Over
  }

  ghost predicate Shows(trace: seq<Event>, s: State) {
    (forall c :: ShowsCall(trace, s, c)) && (forall n :: ShowsThread(trace, s, n))
    && (forall n :: n in s.issued <==> WasIssued(trace, n))
    && s.slot == InTheSlot(trace) && s.generation == Moves(trace)
  }

  lemma LastByIs(trace: seq<Event>, c: nat)
    ensures LastBy(trace, c).Some? ==> IsBy(LastBy(trace, c).value, c)
  {
  }

  lemma ThreadIs(trace: seq<Event>, n: nat)
    ensures var last := LastOfThread(trace, n);
            last.Some? ==> (last.value.Spawned? || last.value.Ended? || last.value.Checked?) && last.value.page == n
  {
  }

  lemma MayFollowMeans(trace: seq<Event>, s: State, e: Event)
    requires Shows(trace, s)
    ensures Step(s, e).Some? <==> MayFollow(trace, e)
  {
    hide LastBy, ToStart, InTheSlot, TakenBy, LastOfThread, WasIssued, Moves;
    match e {
      case Ended(n) => ThreadIs(trace, n); assert ShowsThread(trace, s, n);
      case Checked(n, _) => ThreadIs(trace, n); assert ShowsThread(trace, s, n);
      case Asked(_, _) =>
      case Began(c, _) => LastByIs(trace, c); assert ShowsCall(trace, s, c);
      case Bumped(c) => LastByIs(trace, c); assert ShowsCall(trace, s, c);
      case Took(c) => LastByIs(trace, c); assert ShowsCall(trace, s, c);
      case Told(c) => LastByIs(trace, c); assert ShowsCall(trace, s, c);
      case GaveUp(c) => LastByIs(trace, c); assert ShowsCall(trace, s, c);
      case Issued(c, _) => LastByIs(trace, c); assert ShowsCall(trace, s, c);
      case Published(c, _) => LastByIs(trace, c); assert ShowsCall(trace, s, c);
      case Spawned(c, _) => LastByIs(trace, c); assert ShowsCall(trace, s, c);
    }
  }

  lemma CallOneMore(trace: seq<Event>, s: State, e: Event, c: nat)
    requires Shows(trace, s) && Step(s, e).Some?
    ensures ShowsCall(trace + [e], Step(s, e).value, c)
  {
    var longer := trace + [e];
    assert longer[..|longer| - 1] == trace;
    LastByIs(trace, c);
    assert ShowsCall(trace, s, c);
    hide InTheSlot, LastOfThread, WasIssued, Moves;
  }

  lemma ThreadOneMore(trace: seq<Event>, s: State, e: Event, n: nat)
    requires Shows(trace, s) && Step(s, e).Some?
    ensures ShowsThread(trace + [e], Step(s, e).value, n)
  {
    var longer := trace + [e];
    assert longer[..|longer| - 1] == trace;
    assert ShowsThread(trace, s, n);
    hide InTheSlot, LastBy, ToStart, TakenBy, WasIssued, Moves;
  }

  lemma RestOneMore(trace: seq<Event>, s: State, e: Event)
    requires Shows(trace, s) && Step(s, e).Some?
    ensures var t := Step(s, e).value;
            t.slot == InTheSlot(trace + [e]) && t.generation == Moves(trace + [e])
            && forall n :: n in t.issued <==> WasIssued(trace + [e], n)
  {
    var longer := trace + [e];
    assert longer[..|longer| - 1] == trace && longer[|trace|] == e;
    hide LastBy, ToStart, TakenBy, LastOfThread;
    forall n ensures WasIssued(longer, n) <==> WasIssued(trace, n) || (e.Issued? && e.page == n) {
      if i :| 0 <= i < |trace| && trace[i].Issued? && trace[i].page == n {
        assert longer[i] == trace[i];
      }
    }
  }

  lemma {:induction false} TraceShows(trace: seq<Event>)
    requires Replay(trace).Some?
    ensures Shows(trace, Replay(trace).value)
  {
    if trace != [] {
      var before, e := trace[..|trace| - 1], trace[|trace| - 1];
      TraceShows(before);
      var s := Replay(before).value;
      assert trace == before + [e];
      RestOneMore(before, s, e);
      hide ShowsCall, ShowsThread, WasIssued, InTheSlot, Moves, Step;
      forall c ensures ShowsCall(trace, Replay(trace).value, c) {
        CallOneMore(before, s, e, c);
      }
      forall n ensures ShowsThread(trace, Replay(trace).value, n) {
        ThreadOneMore(before, s, e, n);
      }
    }
  }

  // --------------------------------------------------------- the laws

  /** The runs are exactly those in which each event may follow those before it. */
  lemma TheRuns(trace: seq<Event>, e: Event)
    requires Replay(trace).Some?
    ensures Replay(trace + [e]).Some? <==> MayFollow(trace, e)
  {
    TraceShows(trace);
    MayFollowMeans(trace, Replay(trace).value, e);
    assert (trace + [e])[..|trace + [e]| - 1] == trace;
    hide MayFollow, Shows, Step;
  }

  /** The slot and the counter, from the events alone. */
  lemma TheSlot(trace: seq<Event>)
    requires Replay(trace).Some?
    ensures var s := Replay(trace).value; s.slot == InTheSlot(trace) && s.generation == Moves(trace)
  {
    TraceShows(trace);
    hide ShowsCall, ShowsThread, WasIssued, InTheSlot, Moves, Replay;
  }

  /** Some call told this page to stop: the one it had taken out of the slot. */
  predicate WasTold(trace: seq<Event>, n: nat) {
    exists k :: 0 <= k < |trace| && trace[k].Told? && TakenBy(trace[..k], trace[k].caller) == Some(n)
  }

  /** A page has been told to stop exactly when a call told the one it took. */
  lemma {:induction false} StoppedWasTold(trace: seq<Event>, n: nat)
    requires Replay(trace).Some?
    ensures n in Replay(trace).value.stopped <==> WasTold(trace, n)
  {
    if trace != [] {
      var before, e := trace[..|trace| - 1], trace[|trace| - 1];
      StoppedWasTold(before, n);
      ToldOneMore(before, e, n);
      assert trace == before + [e];
      var s := Replay(before).value;
      if e.Told? {
        TraceShows(before);
        LastByIs(before, e.caller);
        MayFollowMeans(before, s, e);
        assert ShowsCall(before, s, e.caller);
      }
      hide WasTold, TakenBy, LastBy, ToStart;
    }
  }

  lemma ToldOneMore(before: seq<Event>, e: Event, n: nat)
    ensures WasTold(before + [e], n) <==> WasTold(before, n) || (e.Told? && TakenBy(before, e.caller) == Some(n))
  {
    hide TakenBy;
    var trace, last := before + [e], |before|;
    assert trace[..last] == before && trace[last] == e;
    forall k | 0 <= k < last ensures trace[..k] == before[..k] && trace[k] == before[k] {
    }
    if k :| 0 <= k < |before| && before[k].Told? && TakenBy(before[..k], before[k].caller) == Some(n) {
      assert trace[k].Told? && TakenBy(trace[..k], trace[k].caller) == Some(n);
    }
    if e.Told? && TakenBy(before, e.caller) == Some(n) {
      assert trace[last].Told?;
    }
  }
}
