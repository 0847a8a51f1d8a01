/** Which page of the phone's setup engine is current, under every interleaving:
    `GENERATION` and `PAGE` of `crates/itsanas-android/src/lib.rs`, and the
    questions an engine asks through `crates/itsanas-android/src/host.rs`.

    Each step is one atomic action on the shared counter or slot. */
module Pages {
  import opened Text

  /** Where a call into the library stands: in `stop_page`, on its own or at the
      head of `start_page` (`starting`), then in the rest of `start_page`. */
  datatype Pc =
    | Bumping(starting: bool)
    | Taking(starting: bool)
    | Telling(starting: bool, held: Option<nat>)
    | Issuing
    | Binding(mine: nat)
    | Spawning(mine: nat)

  /** Where a page's thread stands. */
  datatype Thread = Serving | Checking | Over

  datatype State = State(
    generation: nat,
    slot: Option<nat>,
    callers: map<nat, Pc>,
    issued: set<nat>,
    published: set<nat>,
    stopped: set<nat>,
    threads: map<nat, Thread>)

  const START := State(0, None, map[], {}, {}, {}, map[])

  /** One atomic action. Callers are numbered; so are pages. */
  datatype Event =
    | Began(caller: nat, starting: bool)
    | Bumped(caller: nat)
    | Took(caller: nat)
    | Told(caller: nat)
    | GaveUp(caller: nat)
    | Issued(caller: nat, page: nat)
    | Published(caller: nat, page: nat)
    | Spawned(caller: nat, page: nat)
    | Ended(page: nat)
    | Checked(page: nat, said: bool)
    | Asked(engine: Option<nat>, allowed: bool)

  /** Whether the action adds one to the counter. */
  predicate Ticks(e: Event) {
    e.Bumped? || e.Issued?
  }

  predicate IsAt(s: State, caller: nat, pc: Pc) {
    caller in s.callers && s.callers[caller] == pc
  }

  /** Whether the call is still in `stop_page`. */
  predicate Stopping(pc: Pc) {
    pc.Bumping? || pc.Taking? || pc.Telling?
  }

  /** What an action does, `None` when it cannot happen. */
  function Step(s: State, e: Event): Option<State> {
    match e
    case Began(c, starting) =>
      if c in s.callers then None else Some(s.(callers := s.callers[c := Bumping(starting)]))
    case Bumped(c) =>
      if c !in s.callers || !s.callers[c].Bumping? then None
      else Some(s.(generation := s.generation + 1, callers := s.callers[c := Taking(s.callers[c].starting)]))
    case Took(c) =>
      if c !in s.callers || !s.callers[c].Taking? then None
      else
        Some(s.(slot := None, callers := s.callers[c := Telling(s.callers[c].starting, s.slot)]))
    case Told(c) =>
      if c !in s.callers || !s.callers[c].Telling? then None
      else
        var pc := s.callers[c];
        Some(s.(stopped := s.stopped + (if pc.held.Some? then {pc.held.value} else {}),
        callers := if pc.starting then s.callers[c := Issuing] else s.callers - {c}))
    case GaveUp(c) =>
      if c !in s.callers || Stopping(s.callers[c]) then None
      else Some(s.(callers := s.callers - {c}))
    case Issued(c, n) =>
      if !IsAt(s, c, Issuing) || n != s.generation + 1 then None
      else Some(s.(generation := n, issued := s.issued + {n}, callers := s.callers[c := Binding(n)]))
    case Published(c, n) =>
      if !IsAt(s, c, Binding(n)) then None
      else Some(s.(slot := Some(n), published := s.published + {n}, callers := s.callers[c := Spawning(n)]))
    case Spawned(c, n) =>
      if !IsAt(s, c, Spawning(n)) then None
      else Some(s.(threads := s.threads[n := Serving], callers := s.callers - {c}))
    case Ended(n) =>
      if n !in s.threads || s.threads[n] != Serving then None else Some(s.(threads := s.threads[n := Checking]))
    case Checked(n, said) =>
      if n !in s.threads || s.threads[n] != Checking || said != (s.generation == n) then None
      else Some(s.(threads := s.threads[n := Over]))
    case Asked(engine, allowed) =>
      if engine.Some? && engine.value !in s.issued then None
      else if allowed != (engine.None? || s.generation == engine.value) then None
      else Some(s)
  }

  function Replay(trace: seq<Event>): Option<State> {
    if trace == [] then Some(START)
    else
      var before := Replay(trace[..|trace| - 1]);
      if before.None? then None else Step(before.value, trace[|trace| - 1])
  }

  lemma {:induction false} Prefix(trace: seq<Event>, i: nat)
    requires Replay(trace).Some? && i <= |trace|
    ensures Replay(trace[..i]).Some?
    ensures i < |trace| ==> Replay(trace[..i + 1]).Some?
    ensures i < |trace| ==> Replay(trace[..i + 1]) == Step(Replay(trace[..i]).value, trace[i])
  {
    if i == |trace| {
      assert trace[..i] == trace;
    } else if i == |trace| - 1 {
      assert trace[..i + 1] == trace;
    } else {
      var most := trace[..|trace| - 1];
      Prefix(most, i);
      assert most[..i] == trace[..i] && most[..i + 1] == trace[..i + 1];
    }
  }

  // ------------------------------------------------ what is always so

  /** Numbers given out are not above the counter; a page in the slot has been
      published and not told to stop. */
  predicate Books(s: State) {
    (forall n :: n in s.issued ==> n <= s.generation)
    && s.published <= s.issued && s.stopped <= s.published && s.threads.Keys <= s.published
    && (s.slot.Some? ==> s.slot.value in s.published && s.slot.value !in s.stopped)
  }

  /** A call under way has a number of its own, with no thread yet, published only
      once it has been; a page it is about to tell is in no slot and not told. */
  predicate MineIsMine(s: State, pc: Pc) {
    (pc.Binding? ==> pc.mine in s.issued && pc.mine !in s.published)
    && (pc.Spawning? ==> pc.mine in s.published && pc.mine !in s.threads)
    && (pc.Telling? && pc.held.Some? ==>
          pc.held.value in s.published && pc.held.value !in s.stopped && s.slot != pc.held)
  }

  predicate NotShared(a: Pc, b: Pc) {
    ((a.Binding? || a.Spawning?) && (b.Binding? || b.Spawning?) ==> a.mine != b.mine)
    && (a.Telling? && b.Telling? && a.held.Some? ==> a.held != b.held)
  }

  predicate EachItsOwn(s: State) {
    forall c :: c in s.callers ==> MineIsMine(s, s.callers[c])
  }

  predicate NoneShared(s: State) {
    forall c, d :: c in s.callers && d in s.callers && c != d ==> NotShared(s.callers[c], s.callers[d])
  }

  predicate Inv(s: State) {
    Books(s) && EachItsOwn(s) && NoneShared(s)
  }

  lemma StepKeepsBooks(s: State, e: Event)
    requires Inv(s) && Step(s, e).Some?
    ensures Books(Step(s, e).value)
  {
    hide NoneShared;
  }

  lemma StepKeepsOwn(s: State, e: Event)
    requires Inv(s) && Step(s, e).Some?
    ensures EachItsOwn(Step(s, e).value)
  {
    var t := Step(s, e).value;
    forall c | c in t.callers ensures MineIsMine(t, t.callers[c]) {
      if c in s.callers {
        assert MineIsMine(s, s.callers[c]);
      }
    }
  }

  lemma StepKeepsApart(s: State, e: Event)
    requires Inv(s) && Step(s, e).Some?
    ensures NoneShared(Step(s, e).value)
  {
    var t := Step(s, e).value;
    forall c, d | c in t.callers && d in t.callers && c != d ensures NotShared(t.callers[c], t.callers[d]) {
      assert c in s.callers ==> MineIsMine(s, s.callers[c]);
      assert d in s.callers ==> MineIsMine(s, s.callers[d]);
      assert c in s.callers && d in s.callers ==> NotShared(s.callers[c], s.callers[d]);
    }
  }

  lemma StepKeepsInv(s: State, e: Event)
    requires Inv(s) && Step(s, e).Some?
    ensures Inv(Step(s, e).value)
  {
    StepKeepsBooks(s, e);
    StepKeepsOwn(s, e);
    StepKeepsApart(s, e);
  }

  lemma {:induction false} AlwaysInv(trace: seq<Event>)
    requires Replay(trace).Some?
    ensures Inv(Replay(trace).value)
  {
    if trace != [] {
      AlwaysInv(trace[..|trace| - 1]);
      StepKeepsInv(Replay(trace[..|trace| - 1]).value, trace[|trace| - 1]);
    }
  }

  // ------------------------------------------------- counting the ticks

  function TickCount(trace: seq<Event>): nat {
    if trace == [] then 0 else TickCount(trace[..|trace| - 1]) + if Ticks(trace[|trace| - 1]) then 1 else 0
  }

  lemma {:induction false} CounterIsTicks(trace: seq<Event>)
    requires Replay(trace).Some?
    ensures Replay(trace).value.generation == TickCount(trace)
  {
    if trace != [] {
      CounterIsTicks(trace[..|trace| - 1]);
    }
  }

  /** The counter moves between two moments exactly when something ticked. */
  lemma {:induction false} TicksBetween(trace: seq<Event>, i: nat, j: nat)
    requires i <= j <= |trace|
    ensures TickCount(trace[..i]) <= TickCount(trace[..j])
    ensures TickCount(trace[..i]) == TickCount(trace[..j]) <==> forall k :: i <= k < j ==> !Ticks(trace[k])
    decreases j
  {
    if i < j {
      TicksBetween(trace, i, j - 1);
      assert trace[..j][..|trace[..j]| - 1] == trace[..j - 1];
    }
  }

  /** The counter at a moment of a run. */
  lemma CounterAt(trace: seq<Event>, i: nat)
    requires Replay(trace).Some? && i <= |trace|
    ensures Replay(trace[..i]).Some? && Replay(trace[..i]).value.generation == TickCount(trace[..i])
  {
    Prefix(trace, i);
    CounterIsTicks(trace[..i]);
  }

  /** The number of a page is the counter's, once it was given. */
  lemma IssuedIs(trace: seq<Event>, i: nat, c: nat, n: nat)
    requires Replay(trace).Some? && i < |trace| && trace[i] == Issued(c, n)
    ensures n == TickCount(trace[..i + 1])
  {
    Prefix(trace, i);
    CounterAt(trace, i + 1);
  }

  // ------------------------------------------------------ the promises

  /** No two pages have the same number, and later ones have larger. */
  lemma NumbersIncrease(trace: seq<Event>, i: nat, j: nat, c: nat, d: nat, m: nat, n: nat)
    requires Replay(trace).Some? && i < j < |trace| && trace[i] == Issued(c, m) && trace[j] == Issued(d, n)
    ensures m < n
  {
    IssuedIs(trace, i, c, m);
    IssuedIs(trace, j, d, n);
    TicksBetween(trace, i + 1, j + 1);
    assert Ticks(trace[j]);
  }

  /** At most one page is current: two whose number the counter shows are one. */
  lemma AtMostOneCurrent(trace: seq<Event>, i: nat, j: nat)
    requires Replay(trace).Some? && i < |trace| && j < |trace| && trace[i].Issued? && trace[j].Issued?
    requires trace[i].page == trace[j].page == Replay(trace).value.generation
    ensures i == j
  {
    if i < j {
      NumbersIncrease(trace, i, j, trace[i].caller, trace[j].caller, trace[i].page, trace[j].page);
    } else if j < i {
      NumbersIncrease(trace, j, i, trace[j].caller, trace[i].caller, trace[j].page, trace[i].page);
    }
  }

  /** A page's thread says `closed` exactly when nothing was stopped or started
      between its number being given and its last look: a page stopped before it
      looks, or replaced, ends without a word. */
  lemma ClosedIsSaidOnlyByTheCurrent(trace: seq<Event>, i: nat, j: nat, c: nat, n: nat, said: bool)
    requires Replay(trace).Some? && i < j < |trace| && trace[i] == Issued(c, n) && trace[j] == Checked(n, said)
    ensures said <==> forall k :: i < k < j ==> !Ticks(trace[k])
  {
    IssuedIs(trace, i, c, n);
    Prefix(trace, j);
    CounterAt(trace, j);
    TicksBetween(trace, i + 1, j);
  }

  /** So does an engine's question: it is put exactly while its page is current. */
  lemma AskedOnlyWhileCurrent(trace: seq<Event>, i: nat, j: nat, c: nat, n: nat, allowed: bool)
    requires Replay(trace).Some? && i < j < |trace| && trace[i] == Issued(c, n) && trace[j] == Asked(Some(n), allowed)
    ensures allowed <==> forall k :: i < k < j ==> !Ticks(trace[k])
  {
    IssuedIs(trace, i, c, n);
    Prefix(trace, j);
    CounterAt(trace, j);
    TicksBetween(trace, i + 1, j);
  }

  /** An engine refused once is refused for ever. */
  lemma RefusedForEver(trace: seq<Event>, i: nat, j: nat, n: nat, allowed: bool)
    requires Replay(trace).Some? && i < j < |trace|
    requires trace[i] == Asked(Some(n), false) && trace[j] == Asked(Some(n), allowed)
    ensures !allowed
  {
    Prefix(trace, i);
    Prefix(trace, j);
    AlwaysInv(trace[..i]);
    CounterAt(trace, i);
    CounterAt(trace, j);
    TicksBetween(trace, i, j);
  }

  lemma {:induction false} OverStaysOver(trace: seq<Event>, n: nat, i: nat)
    requires Replay(trace).Some? && i < |trace| && trace[i].Checked? && trace[i].page == n
    ensures var s := Replay(trace).value; n in s.threads && s.threads[n] == Over
    decreases |trace|
  {
    if i < |trace| - 1 {
      var most := trace[..|trace| - 1];
      assert most[i] == trace[i];
      OverStaysOver(most, n, i);
      AlwaysInv(most);
    }
  }

  /** Each page looks, and so says `closed`, at most once. */
  lemma ClosedAtMostOnce(trace: seq<Event>, i: nat, j: nat)
    requires Replay(trace).Some? && i < |trace| && j < |trace|
    requires trace[i].Checked? && trace[j].Checked? && trace[i].page == trace[j].page
    ensures i == j
  {
    if i != j {
      var a, b := if i < j then i else j, if i < j then j else i;
      Prefix(trace, b);
      assert trace[..b][a] == trace[a];
      OverStaysOver(trace[..b], trace[a].page, a);
    }
  }

  // ------------------------------------------- whether a page can be stopped

  /** Whether some call has the page's stop in hand, and is about to use it. */
  predicate InHand(s: State, n: nat) {
    exists c :: c in s.callers && s.callers[c].Telling? && s.callers[c].held == Some(n)
  }

  /** A page whose stop has been put in the slot, that was not told to stop, whose
      stop the slot no longer holds and no call does: nothing can stop it but its
      own idleness. */
  predicate OutOfReach(s: State, n: nat) {
    n in s.published && n !in s.stopped && s.slot != Some(n) && !InHand(s, n)
  }

  /** Such a page, and its thread is serving it. */
  predicate ServedOutOfReach(s: State, n: nat) {
    OutOfReach(s, n) && n in s.threads && s.threads[n] == Serving
  }

  /** The `k`-th action puts a page in the slot over this one. */
  predicate Overwrites(trace: seq<Event>, k: nat, n: nat)
    requires k < |trace|
  {
    trace[k].Published? && Replay(trace[..k]).Some? && Replay(trace[..k]).value.slot == Some(n)
  }

  lemma OutOfReachStep(trace: seq<Event>, n: nat)
    requires trace != [] && Replay(trace).Some?
    ensures var before, last := trace[..|trace| - 1], |trace| - 1;
            OutOfReach(Replay(trace).value, n) <==> OutOfReach(Replay(before).value, n) || Overwrites(trace, last, n)
  {
    var before, e := trace[..|trace| - 1], trace[|trace| - 1];
    AlwaysInv(before);
    AlwaysInv(trace);
    InHandStep(Replay(before).value, e, n);
    hide InHand;
  }

  /** A page is taken in hand out of the slot, and out of hand by being told. */
  lemma InHandStep(s: State, e: Event, n: nat)
    requires Inv(s) && Step(s, e).Some?
    ensures var t := Step(s, e).value;
            InHand(t, n) <==> (InHand(s, n) && n !in t.stopped) || (e.Took? && s.slot == Some(n))
  {
    var t := Step(s, e).value;
    if c :| c in s.callers && s.callers[c].Telling? && s.callers[c].held == Some(n) {
      assert MineIsMine(s, s.callers[c]);
      if n !in t.stopped {
        assert c in t.callers && t.callers[c] == s.callers[c];
      } else {
        forall d | d in t.callers && t.callers[d].Telling? ensures t.callers[d].held != Some(n) {
          assert d in s.callers;
          assert d != c ==> NotShared(s.callers[c], s.callers[d]);
        }
      }
    }
    if e.Took? && s.slot == Some(n) {
      assert t.callers[e.caller].held == Some(n);
    }
    if c :| c in t.callers && t.callers[c].Telling? && t.callers[c].held == Some(n) {
      assert c in s.callers;
    }
  }

  /** A page is out of reach exactly when another was put in the slot over it. */
  lemma {:induction false} OutOfReachIffOverwritten(trace: seq<Event>, n: nat)
    requires Replay(trace).Some?
    ensures OutOfReach(Replay(trace).value, n) <==> exists k :: 0 <= k < |trace| && Overwrites(trace, k, n)
  {
    if trace != [] {
      var before, last := trace[..|trace| - 1], |trace| - 1;
      OutOfReachIffOverwritten(before, n);
      OutOfReachStep(trace, n);
      forall k | 0 <= k < last ensures Overwrites(trace, k, n) == Overwrites(before, k, n) {
        assert trace[..k] == before[..k];
      }
      hide Overwrites, OutOfReach, Replay;
      if OutOfReach(Replay(before).value, n) {
        var k :| 0 <= k < |before| && Overwrites(before, k, n);
        assert Overwrites(trace, k, n);
      }
    }
  }

  /** Every call into the library begins with no other under way. */
  predicate OneAtATime(trace: seq<Event>) {
    trace == []
    || (OneAtATime(trace[..|trace| - 1])
        && (trace[|trace| - 1].Began? ==>
              var before := Replay(trace[..|trace| - 1]); before.Some? && before.value.callers == map[]))
  }

  predicate Alone(s: State) {
    (forall c, d :: c in s.callers && d in s.callers ==> c == d)
    && forall c :: c in s.callers && (s.callers[c].Telling? || s.callers[c].Issuing? || s.callers[c].Binding?) ==>
         s.slot == None
  }

  lemma AloneStep(s: State, e: Event)
    requires Alone(s) && Step(s, e).Some? && (e.Began? ==> s.callers == map[])
    ensures Alone(Step(s, e).value)
  {
  }

  lemma {:induction false} OneAtATimeIsAlone(trace: seq<Event>)
    requires Replay(trace).Some? && OneAtATime(trace)
    ensures Alone(Replay(trace).value)
  {
    if trace != [] {
      OneAtATimeIsAlone(trace[..|trace| - 1]);
      AloneStep(Replay(trace[..|trace| - 1]).value, trace[|trace| - 1]);
    }
  }

  /** With calls one at a time no page is ever out of reach: once a call has
      returned, every page but the slot's has been told to stop. */
  lemma {:induction false} NoneOutOfReachOneAtATime(trace: seq<Event>, n: nat)
    requires Replay(trace).Some? && OneAtATime(trace)
    ensures !OutOfReach(Replay(trace).value, n)
  {
    if trace != [] {
      NoneOutOfReachOneAtATime(trace[..|trace| - 1], n);
      OutOfReachStep(trace, n);
      OneAtATimeIsAlone(trace[..|trace| - 1]);
    }
  }

  /** Two starts at once can leave one, being served: both take an empty slot, then
      both fill it and serve. */
  lemma TwoStartsLeaveOneOutOfReach() returns (trace: seq<Event>)
    ensures Replay(trace).Some? && ServedOutOfReach(Replay(trace).value, 3)
    ensures Replay(trace).value.callers == map[]
  {
    var s, t := TwoFillTheSlot();
    var s1, t1 := More(s, t, Spawned(1, 3));
    var s2, t2 := More(s1, t1, Spawned(2, 4));
    trace := t2;
  }

  lemma TwoFillTheSlot() returns (s: State, trace: seq<Event>)
    ensures Replay(trace) == Some(s)
    ensures s == State(4, Some(4), map[1 := Spawning(3), 2 := Spawning(4)], {3, 4}, {3, 4}, {}, map[])
  {
    var s0, t0 := TwoTakeAnEmptySlot();
    var s1, t1 := More(s0, t0, Issued(1, 3));
    var s2, t2 := More(s1, t1, Issued(2, 4));
    var s3, t3 := More(s2, t2, Published(1, 3));
    s, trace := More(s3, t3, Published(2, 4));
    assert s.callers == map[1 := Spawning(3), 2 := Spawning(4)] && s.issued == s.published == {3, 4};
  }

  lemma TwoTakeAnEmptySlot() returns (s: State, trace: seq<Event>)
    ensures Replay(trace) == Some(s)
    ensures s == State(2, None, map[1 := Issuing, 2 := Issuing], {}, {}, {}, map[])
  {
    var s1, t1 := TwoStop();
    var s2, t2 := More(s1, t1, Took(1));
    var s3, t3 := More(s2, t2, Took(2));
    var s4, t4 := More(s3, t3, Told(1));
    s, trace := More(s4, t4, Told(2));
    assert s.callers == map[1 := Issuing, 2 := Issuing];
  }

  lemma TwoStop() returns (s: State, trace: seq<Event>)
    ensures Replay(trace) == Some(s)
    ensures s == State(2, None, map[1 := Taking(true), 2 := Taking(true)], {}, {}, {}, map[])
  {
    var s1, t1 := More(START, [], Began(1, true));
    var s2, t2 := More(s1, t1, Began(2, true));
    var s3, t3 := More(s2, t2, Bumped(1));
    s, trace := More(s3, t3, Bumped(2));
    assert s.callers == map[1 := Taking(true), 2 := Taking(true)];
  }

  lemma More(s: State, trace: seq<Event>, e: Event) returns (next: State, longer: seq<Event>)
    requires Replay(trace) == Some(s) && Step(s, e).Some?
    ensures next == Step(s, e).value && longer == trace + [e] && Replay(longer) == Some(next)
  {
    next, longer := Step(s, e).value, trace + [e];
    assert longer[..|longer| - 1] == trace;
  }

  // --------------------------------------------------- the code itself

  /** What the one call under way does, step by step. */
  lemma StopSteps(s: State, c: nat, starting: bool)
    requires s.callers == map[]
    ensures var s1 := s.(callers := map[c := Bumping(starting)]);
            var s2 := s1.(generation := s.generation + 1, callers := map[c := Taking(starting)]);
            var s3 := s2.(slot := None, callers := map[c := Telling(starting, s.slot)]);
            var s4 := s3.(stopped := s.stopped + (if s.slot.Some? then {s.slot.value} else {}),
            callers := if starting then map[c := Issuing] else map[]);
            Step(s, Began(c, starting)) == Some(s1) && Step(s1, Bumped(c)) == Some(s2)
            && Step(s2, Took(c)) == Some(s3) && Step(s3, Told(c)) == Some(s4)
  {
    assert map[c := Bumping(starting)][c := Taking(starting)] == map[c := Taking(starting)];
    assert map[c := Taking(starting)][c := Telling(starting, s.slot)] == map[c := Telling(starting, s.slot)];
    assert map[c := Telling(starting, s.slot)][c := Issuing] == map[c := Issuing];
    assert map[c := Telling(starting, s.slot)] - {c} == map[];
  }

  lemma IssueStep(s: State, c: nat)
    requires s.callers == map[c := Issuing]
    ensures var n := s.generation + 1;
            Step(s, Issued(c, n))
            == Some(s.(generation := n, issued := s.issued + {n}, callers := map[c := Binding(n)]))
  {
    assert map[c := Issuing][c := Binding(s.generation + 1)] == map[c := Binding(s.generation + 1)];
  }

  lemma PublishSteps(s: State, c: nat, n: nat)
    requires s.callers == map[c := Binding(n)]
    ensures var s1 := s.(slot := Some(n), published := s.published + {n}, callers := map[c := Spawning(n)]);
            Step(s, Published(c, n)) == Some(s1)
            && Step(s1, Spawned(c, n)) == Some(s1.(threads := s.threads[n := Serving], callers := map[]))
  {
    assert map[c := Binding(n)][c := Spawning(n)] == map[c := Spawning(n)];
    assert map[c := Spawning(n)] - {c} == map[];
  }

  /** The counter, the slot and the threads, as one call at a time works on them;
      `trace` is what has happened so far. */
  class Library {
    var generation: nat
    var slot: Option<nat>
    var threads: map<nat, Thread>
    ghost var trace: seq<Event>

    /** The fields are where the trace leads, with these calls under way. */
    ghost predicate During(callers: map<nat, Pc>)
      reads this
    {
      var s := Replay(trace);
      s.Some? && s.value.generation == generation && s.value.slot == slot && s.value.threads == threads
      && s.value.callers == callers && OneAtATime(trace)
    }

    ghost predicate Valid()
      reads this
    {
      During(map[])
    }

    constructor ()
      ensures Valid() && trace == []
    {
      generation, slot, threads, trace := 0, None, map[], [];
    }

    /** One more thing that happened. */
    ghost method Note(e: Event)
      requires Replay(trace).Some? && Step(Replay(trace).value, e).Some? && OneAtATime(trace)
      requires e.Began? ==> Replay(trace).value.callers == map[]
      modifies this`trace
      ensures trace == old(trace) + [e] && Replay(trace) == Step(Replay(old(trace)).value, e) && OneAtATime(trace)
    {
      var next, longer := More(Replay(trace).value, trace, e);
      assert longer[..|longer| - 1] == trace;
      trace := longer;
    }

    /** `stop_page`, by itself or at the head of a start: the counter moves, and
        the page in the slot is told to stop. */
    method StopPage(ghost caller: nat, ghost starting: bool)
      requires Valid()
      modifies this
      ensures During(if starting then map[caller := Issuing] else map[])
      ensures trace == old(trace) + [Began(caller, starting), Bumped(caller), Took(caller), Told(caller)]
      ensures slot == None && generation == old(generation) + 1 && threads == old(threads)
      ensures old(slot).Some? ==> old(slot).value in Replay(trace).value.stopped
      ensures Replay(old(trace)).value.stopped <= Replay(trace).value.stopped
    {
      StopSteps(Replay(trace).value, caller, starting);
      Note(Began(caller, starting));
      generation := generation + 1;
      Note(Bumped(caller));
      slot := None;
      Note(Took(caller));
      Note(Told(caller));
    }

    /** The call is over with an error, wherever it was. */
    ghost method GiveUp(caller: nat, pc: Pc)
      requires During(map[caller := pc]) && !Stopping(pc)
      modifies this`trace
      ensures Valid() && trace == old(trace) + [GaveUp(caller)]
      ensures Replay(trace).value.stopped == Replay(old(trace)).value.stopped
    {
      Note(GaveUp(caller));
      assert Replay(trace).value.callers == map[];
    }

    /** The end of a start: the page's stop put in the slot and its thread spawned,
        if it can be. */
    method Publish(ghost caller: nat, spawned: bool) returns (mine: Option<nat>)
      requires During(map[caller := Binding(generation)])
      modifies this
      ensures Valid() && old(trace) < trace && generation == old(generation) && slot == Some(generation)
      ensures mine == if spawned then Some(generation) else None
      ensures threads == if spawned then old(threads)[generation := Serving] else old(threads)
      ensures Replay(trace).value.stopped == Replay(old(trace)).value.stopped
    {
      PublishSteps(Replay(trace).value, caller, generation);
      slot := Some(generation);
      Note(Published(caller, generation));
      if !spawned {
        GiveUp(caller, Spawning(generation));
        return None;
      }
      threads := threads[generation := Serving];
      Note(Spawned(caller, generation));
      mine := Some(generation);
    }

    /** The second half of a start: a number is taken, then the page is bound, its
        stop put in the slot and its thread spawned, as far as each succeeds. */
    method Serve(ghost caller: nat, bound: bool, spawned: bool) returns (mine: Option<nat>)
      requires During(map[caller := Issuing])
      modifies this
      ensures Valid() && old(trace) < trace && trace[|old(trace)|] == Issued(caller, generation)
      ensures generation == old(generation) + 1
      ensures mine == if bound && spawned then Some(generation) else None
      ensures slot == if bound then Some(generation) else old(slot)
      ensures threads == if mine.Some? then old(threads)[generation := Serving] else old(threads)
      ensures Replay(trace).value.stopped == Replay(old(trace)).value.stopped
    {
      IssueStep(Replay(trace).value, caller);
      generation := generation + 1;
      Note(Issued(caller, generation));
      if !bound {
        GiveUp(caller, Binding(generation));
        return None;
      }
      mine := Publish(caller, spawned);
    }

    /** `start_page`, with what the network, the bind and the spawn answered: the
        page's number when it is being served. A mode it does not know changes
        nothing; any other call stops the page that was there, even when it fails. */
    method StartPage(ghost caller: nat, mode: string, networkOk: bool, bound: bool, spawned: bool)
      returns (mine: Option<nat>)
      requires Valid()
      modifies this
      ensures Valid() && old(trace) <= trace
      ensures mine.Some? <==> (mode == "setup" || mode == "settings") && networkOk && bound && spawned
      ensures mine.Some? ==> mine.value == generation && slot == mine
      ensures threads == if mine.Some? then old(threads)[generation := Serving] else old(threads)
      ensures mode != "setup" && mode != "settings" ==>
                trace == old(trace) && slot == old(slot) && generation == old(generation)
      ensures mode == "setup" || mode == "settings" ==>
                old(generation) < generation
                && (old(slot).Some? ==> old(slot).value in Replay(trace).value.stopped)
    {
      if mode != "setup" && mode != "settings" {
        return None;
      }
      StopPage(caller, true);
      if !networkOk {
        GiveUp(caller, Issuing);
        return None;
      }
      ghost var stopped := trace;
      mine := Serve(caller, bound, spawned);
      assert old(trace) <= stopped <= trace;
    }

    /** The end of a page's thread: it says `closed` if it is still current. */
    method PageEnds(page: nat) returns (said: bool)
      requires Valid() && page in threads && threads[page] == Serving
      modifies this
      ensures Valid() && threads == old(threads)[page := Over] && generation == old(generation) && slot == old(slot)
      ensures said == (generation == page) && trace == old(trace) + [Ended(page), Checked(page, said)]
    {
      Note(Ended(page));
      said := generation == page;
      Note(Checked(page, said));
      threads := threads[page := Over];
    }

    /** `screens`: whether an engine may ask. */
    method Screens(engine: Option<nat>) returns (allowed: bool)
      requires Valid() && (engine.Some? ==> engine.value in Replay(trace).value.issued)
      modifies this`trace
      ensures Valid() && trace == old(trace) + [Asked(engine, allowed)]
      ensures allowed <==> engine.None? || engine.value == generation
    {
      allowed := engine.None? || generation == engine.value;
      Note(Asked(engine, allowed));
    }
  }
}
