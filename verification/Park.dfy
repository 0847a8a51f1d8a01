/** The parking loop of `crates/itsanas-cli/src/daemon.rs`: a machine nobody can
    dial parks on a relay of the account, and passes to the next when one closes
    or refuses it. The world it asks is given by a tape of arbitrary answers. */
module Park {
  import opened Arithmetic
  import opened Text

  type DeviceId = nat

  datatype Relay = Relay(device: DeviceId, address: string)

  /** How a park ended: a caller was handed over, it went quiet or was closed,
      or it was refused. */
  datatype Outcome = Caller | Closed | Refused

  /** What the loop asked, said and did, in order. */
  datatype Event =
    | Looked(go: bool)
    | Reach(unreachable: bool)
    | Book(relays: seq<Relay>)
    | Announced(behind: Option<Relay>)
    | Parked(relay: Relay, outcome: Outcome)
    | Stopping(stopping: bool)

  /** One answer of the world, whatever is asked. */
  datatype Answer = Answer(go: bool, unreachable: bool, relays: seq<Relay>, outcome: Outcome, stopping: bool)

  function Rest(tape: seq<Answer>): seq<Answer> {
    if tape == [] then [] else tape[1..]
  }

  /** `ParkSite`, the shutdown flag and the wait: each question takes the next
      answer. When there are none left the daemon is stopping. */
  class Site {
    var tape: seq<Answer>
    var book: seq<Relay>
    var log: seq<Event>

    constructor (tape: seq<Answer>, book: seq<Relay>)
      ensures this.tape == tape && this.book == book && log == []
    {
      this.tape, this.book, this.log := tape, book, [];
    }

    method Wait() returns (go: bool)
      modifies this
      ensures log == old(log) + [Looked(go)] && |tape| <= |old(tape)| && (go ==> |tape| < |old(tape)|)
    {
      go := tape != [] && tape[0].go;
      log, tape := log + [Looked(go)], Rest(tape);
    }

    method Unreachable() returns (yes: bool)
      modifies this
      ensures log == old(log) + [Reach(yes)] && |tape| <= |old(tape)| && (yes ==> |tape| < |old(tape)|)
    {
      yes := tape != [] && tape[0].unreachable;
      log, tape := log + [Reach(yes)], Rest(tape);
    }

    method Relays() returns (relays: seq<Relay>)
      modifies this
      ensures log == old(log) + [Book(relays)] && |tape| <= |old(tape)| && book == relays
      ensures old(tape) == [] ==> relays == old(book)
    {
      relays := if tape == [] then book else tape[0].relays;
      log, tape, book := log + [Book(relays)], Rest(tape), relays;
    }

    method Announce(relay: Option<Relay>)
      modifies this`log
      ensures log == old(log) + [Announced(relay)]
    {
      log := log + [Announced(relay)];
    }

    method ParkOn(relay: Relay) returns (outcome: Outcome)
      modifies this
      ensures log == old(log) + [Parked(relay, outcome)] && |tape| <= |old(tape)|
    {
      outcome := if tape == [] then Caller else tape[0].outcome;
      log, tape := log + [Parked(relay, outcome)], Rest(tape);
    }

    method ShuttingDown() returns (yes: bool)
      modifies this
      ensures log == old(log) + [Stopping(yes)] && |tape| <= |old(tape)|
    {
      yes := tape == [] || tape[0].stopping;
      log, tape := log + [Stopping(yes)], Rest(tape);
    }
  }

  // ------------------------------------------------------------ choosing

  /** The relays that are not this machine. */
  function Others(relays: seq<Relay>, me: DeviceId): seq<Relay> {
    if relays == [] then []
    else (if relays[0].device == me then [] else [relays[0]]) + Others(relays[1..], me)
  }

  predicate AllFailed(choices: seq<Relay>, failed: set<DeviceId>) {
    forall i :: 0 <= i < |choices| ==> choices[i].device in failed
  }

  /** The first choice that has not failed. */
  function First(choices: seq<Relay>, failed: set<DeviceId>): (r: Option<Relay>)
    ensures r.Some? ==> r.value in choices && r.value.device !in failed
    ensures r.None? <==> AllFailed(choices, failed)
  {
    if choices == [] then None
    else if choices[0].device !in failed then Some(choices[0])
    else First(choices[1..], failed)
  }

  lemma {:induction false} OthersAreOthers(relays: seq<Relay>, me: DeviceId, r: Relay)
    ensures r in Others(relays, me) <==> r in relays && r.device != me
  {
    if relays != [] {
      OthersAreOthers(relays[1..], me, r);
    }
  }

  // -------------------------------------------------------- the protocol

  /** Where the loop stands between two events. */
  datatype Phase =
    | Between
    | Looking
    | Choosing
    | Staying(relay: Relay)
    | Checking(relay: Relay)
    | Ready(relay: Relay)
    | Behind(relay: Relay)
    | Called(relay: Relay)
    | Dropped
    | Leaving
    | Over

  /** The phase, and the relays that refused or closed the park since all had. */
  datatype Protocol = Protocol(phase: Phase, failed: set<DeviceId>)

  const START := Protocol(Between, {})

  /** What a look at the book leaves failed: none of them, once all have. */
  function Cleared(choices: seq<Relay>, failed: set<DeviceId>): set<DeviceId> {
    if AllFailed(choices, failed) then {} else failed
  }

  /** The protocol, one event at a time; `None` when the event is not its next. */
  function Step(p: Protocol, e: Event, me: DeviceId): Option<Protocol> {
    match (p.phase, e)
    case (Between, Looked(go)) => Some(p.(phase := if go then Looking else Over))
    case (Looking, Reach(unreachable)) => Some(p.(phase := if unreachable then Choosing else Between))
    case (Choosing, Book(relays)) =>
      var choices := Others(relays, me);
      var failed := Cleared(choices, p.failed);
      var pick := First(choices, failed);
      Some(Protocol(if pick.Some? then Staying(pick.value) else Between, failed))
    case (Staying(r), Reach(unreachable)) => Some(p.(phase := if unreachable then Checking(r) else Leaving))
    case (Checking(r), Book(relays)) => Some(p.(phase := if r in relays then Ready(r) else Leaving))
    case (Ready(r), Announced(behind)) => if behind == Some(r) then Some(p.(phase := Behind(r))) else None
    case (Behind(r), Parked(relay, outcome)) =>
      if relay != r then None
      else if outcome.Caller? then Some(p.(phase := Called(r)))
      else Some(Protocol(Dropped, p.failed + {r.device}))
    case (Called(r), Stopping(stopping)) => Some(p.(phase := if stopping then Over else Staying(r)))
    case (Dropped, Announced(behind)) => if behind.None? then Some(p.(phase := Leaving)) else None
    case (Leaving, Announced(behind)) => if behind.None? then Some(p.(phase := Between)) else None
    case _ => None
  }

  /** Where the protocol stands after a log; `None` if the log is not one of its. */
  function Replay(log: seq<Event>, me: DeviceId): Option<Protocol> {
    if log == [] then Some(START)
    else
      var before := Replay(log[..|log| - 1], me);
      if before.None? then None else Step(before.value, log[|log| - 1], me)
  }

  lemma ReplayOneMore(log: seq<Event>, e: Event, me: DeviceId)
    requires Replay(log, me).Some?
    ensures Replay(log + [e], me) == Step(Replay(log, me).value, e, me)
  {
    assert (log + [e])[..|log + [e]| - 1] == log;
  }

  // ----------------------------------------------- what the protocol keeps

  /** The relay the machine is announced behind, if any. */
  function AnnouncedBehind(log: seq<Event>): Option<Relay> {
    if log == [] then None
    else if log[|log| - 1].Announced? then log[|log| - 1].behind
    else AnnouncedBehind(log[..|log| - 1])
  }

  /** A relay under way is another machine, and one that has not failed. */
  predicate Sound(p: Protocol, me: DeviceId) {
    p.phase.Staying? || p.phase.Checking? || p.phase.Ready? || p.phase.Behind? || p.phase.Called?
    ==> p.phase.relay.device != me && p.phase.relay.device !in p.failed
  }

  /** Between looks the machine is announced behind nobody; while parked, behind
      the relay it is parked on. */
  predicate AnnouncedRight(phase: Phase, behind: Option<Relay>) {
    match phase
    case Between => behind == None
    case Looking => behind == None
    case Choosing => behind == None
    case Behind(r) => behind == Some(r)
    case Called(r) => behind == Some(r)
    case _ => true
  }

  lemma StepKeepsSound(p: Protocol, e: Event, me: DeviceId)
    requires Sound(p, me) && Step(p, e, me).Some?
    ensures Sound(Step(p, e, me).value, me)
  {
    if p.phase.Choosing? {
      var choices := Others(e.relays, me);
      var pick := First(choices, Cleared(choices, p.failed));
      if pick.Some? {
        OthersAreOthers(e.relays, me, pick.value);
      }
    }
  }

  lemma {:induction false} ProtocolKeeps(log: seq<Event>, me: DeviceId)
    requires Replay(log, me).Some?
    ensures Sound(Replay(log, me).value, me)
    ensures AnnouncedRight(Replay(log, me).value.phase, AnnouncedBehind(log))
  {
    if log != [] {
      var before := log[..|log| - 1];
      ProtocolKeeps(before, me);
      StepKeepsSound(Replay(before, me).value, log[|log| - 1], me);
    }
  }

  lemma {:induction false} ReplayPrefix(log: seq<Event>, me: DeviceId, i: nat)
    requires Replay(log, me).Some? && i < |log|
    ensures Replay(log[..i], me).Some? && Step(Replay(log[..i], me).value, log[i], me).Some?
    ensures Replay(log[..i + 1], me) == Step(Replay(log[..i], me).value, log[i], me)
  {
    if i < |log| - 1 {
      ReplayPrefix(log[..|log| - 1], me, i);
      assert log[..|log| - 1][..i] == log[..i] && log[..|log| - 1][..i + 1] == log[..i + 1];
    } else {
      assert log[..i + 1] == log;
    }
  }

  /** In every run: the machine never parks on itself and never announces itself;
      a park finds it announced behind that very relay; and every look finds it
      announced behind nobody. */
  lemma AnnouncementsAreRight(log: seq<Event>, me: DeviceId, i: nat)
    requires Replay(log, me).Some? && i < |log|
    ensures log[i].Parked? ==> log[i].relay.device != me && AnnouncedBehind(log[..i]) == Some(log[i].relay)
    ensures log[i].Announced? && log[i].behind.Some? ==> log[i].behind.value.device != me
    ensures log[i].Looked? ==> AnnouncedBehind(log[..i]) == None
  {
    ReplayPrefix(log, me, i);
    ProtocolKeeps(log[..i], me);
  }

  /** Whether the event is a look that finds every listed relay failed. */
  predicate Clears(p: Protocol, e: Event, me: DeviceId) {
    p.phase.Choosing? && e.Book? && AllFailed(Others(e.relays, me), p.failed)
  }

  /** No look since the `from`-th event found every listed relay failed. */
  predicate NotClearedSince(log: seq<Event>, me: DeviceId, from: nat) {
    |log| <= from + 1
    || (var before := log[..|log| - 1];
        NotClearedSince(before, me, from)
        && Replay(before, me).Some? && !Clears(Replay(before, me).value, log[|log| - 1], me))
  }

  /** A relay that failed is passed over until a look finds that every listed one
      has: with no such look since, in any run and under any books, it is not
      parked on again. */
  lemma {:induction false} FailedIsPassedOver(log: seq<Event>, me: DeviceId, from: nat, device: DeviceId)
    requires Replay(log, me).Some? && from < |log|
    requires Failed(log[from]) && log[from].relay.device == device
    requires NotClearedSince(log, me, from)
    ensures device in Replay(log, me).value.failed
    ensures forall i :: from < i < |log| && log[i].Parked? ==> log[i].relay.device != device
  {
    hide Step, Clears, AnnouncedBehind;
    var most, e := log[..|log| - 1], log[|log| - 1];
    ProtocolKeeps(most, me);
    if from < |log| - 1 {
      FailedIsPassedOver(most, me, from, device);
      StillFailed(Replay(most, me).value, e, me, device);
      assert forall i :: 0 <= i < |most| ==> most[i] == log[i];
    } else {
      JustFailed(Replay(most, me).value, e, me);
    }
  }

  lemma JustFailed(p: Protocol, e: Event, me: DeviceId)
    requires Step(p, e, me).Some? && Failed(e)
    ensures e.relay.device in Step(p, e, me).value.failed
  {
  }

  /** A failed relay stays failed, and is not the one parked on, until a look clears. */
  lemma StillFailed(p: Protocol, e: Event, me: DeviceId, device: DeviceId)
    requires Sound(p, me) && Step(p, e, me).Some? && !Clears(p, e, me) && device in p.failed
    ensures device in Step(p, e, me).value.failed && (e.Parked? ==> e.relay.device != device)
  {
  }

  predicate Failed(e: Event) {
    e.Parked? && !e.outcome.Caller?
  }

  /** The devices whose parks failed, in order. */
  function Failures(log: seq<Event>): seq<DeviceId> {
    if log == [] then []
    else
      var e := log[|log| - 1];
      Failures(log[..|log| - 1]) + if Failed(e) then [e.relay.device] else []
  }

  // ------------------------------------------------------------ rotation

  /** The devices of a list, each where it first stands, those seen left out. */
  function Devices(choices: seq<Relay>, seen: set<DeviceId>): seq<DeviceId>
    decreases |choices|
  {
    if choices == [] then []
    else if choices[0].device in seen then Devices(choices[1..], seen)
    else [choices[0].device] + Devices(choices[1..], seen + {choices[0].device})
  }

  function SetOf(s: seq<DeviceId>): set<DeviceId> {
    set i | 0 <= i < |s| :: s[i]
  }

  lemma {:induction false} DevicesAreDistinct(choices: seq<Relay>, seen: set<DeviceId>)
    ensures SetOf(Devices(choices, seen)) == (set r | r in choices && r.device !in seen :: r.device)
    ensures forall i, j :: 0 <= i < j < |Devices(choices, seen)| ==>
              Devices(choices, seen)[i] != Devices(choices, seen)[j]
    decreases |choices|
  {
    if choices != [] {
      var d := choices[0].device;
      if d in seen {
        DevicesAreDistinct(choices[1..], seen);
      } else {
        DevicesAreDistinct(choices[1..], seen + {d});
        var all, rest := Devices(choices, seen), Devices(choices[1..], seen + {d});
        assert all == [d] + rest;
        assert SetOf(all) == {d} + SetOf(rest) by {
          forall x | x in SetOf(rest) ensures x in SetOf(all) {
            var i :| 0 <= i < |rest| && rest[i] == x;
            assert all[i + 1] == x;
          }
          assert all[0] == d;
        }
        forall i, j | 0 <= i < j < |all| ensures all[i] != all[j] {
          if i == 0 {
            assert all[j] == rest[j - 1] && rest[j - 1] in SetOf(rest);
          } else {
            assert all[i] == rest[i - 1] && all[j] == rest[j - 1];
          }
        }
      }
    }
  }

  /** With the first `j` devices failed, the next choice is the one after them. */
  lemma {:induction false} FirstIsNext(choices: seq<Relay>, seen: set<DeviceId>, j: nat)
    requires j < |Devices(choices, seen)|
    ensures var r := First(choices, seen + SetOf(Devices(choices, seen)[..j]));
            r.Some? && r.value.device == Devices(choices, seen)[j]
    decreases |choices|
  {
    var all := Devices(choices, seen);
    var failed := seen + SetOf(all[..j]);
    var d := choices[0].device;
    if d in seen {
      FirstIsNext(choices[1..], seen, j);
    } else if j > 0 {
      FirstIsNext(choices[1..], seen + {d}, j - 1);
      var rest := Devices(choices[1..], seen + {d});
      SetOfFront(d, rest, j);
      assert failed == seen + {d} + SetOf(rest[..j - 1]);
    } else {
      assert SetOf(all[..0]) == {};
    }
  }

  lemma SetOfFront(d: DeviceId, rest: seq<DeviceId>, j: nat)
    requires 0 < j <= |rest| + 1
    ensures SetOf(([d] + rest)[..j]) == {d} + SetOf(rest[..j - 1])
  {
    var all := ([d] + rest)[..j];
    assert all == [d] + rest[..j - 1];
    forall x | x in SetOf(rest[..j - 1]) ensures x in SetOf(all) {
      var i :| 0 <= i < j - 1 && rest[..j - 1][i] == x;
      assert all[i + 1] == x;
    }
    assert all[0] == d;
  }

  /** Failures go round the list in its order, for ever. */
  predicate RoundRobin(failures: seq<DeviceId>, list: seq<DeviceId>) {
    (list == [] ==> failures == [])
    && forall k :: 0 <= k < |failures| && list != [] ==> failures[k] == list[k % |list|]
  }

  /** The failed set, with one list from the start: the devices that failed in
      the round under way, or all of them once it is complete. */
  predicate FailedSoFar(failed: set<DeviceId>, failures: seq<DeviceId>, list: seq<DeviceId>) {
    RoundRobin(failures, list)
    && (list != [] ==>
          var j := |failures| % |list|;
          failed == SetOf(list[..j]) || (j == 0 && failed == SetOf(list)))
  }

  lemma ModStep(k: nat, n: nat)
    requires n > 0
    ensures (k + 1) % n == if k % n + 1 == n then 0 else k % n + 1
  {
    var q, r := k / n, k % n;
    if r + 1 == n {
      assert k + 1 == (q + 1) * n;
      DivisionIs(k + 1, n, q + 1, 0);
    } else {
      DivisionIs(k + 1, n, q, r + 1);
    }
  }

  /** What the look at the list makes of the failed set, and whom it picks. */
  lemma PickIsNextInTurn(choices: seq<Relay>, failed: set<DeviceId>, failures: seq<DeviceId>)
    requires FailedSoFar(failed, failures, Devices(choices, {}))
    ensures var list := Devices(choices, {});
            var cleared := if AllFailed(choices, failed) then {} else failed;
            FailedSoFar(cleared, failures, list)
            && (list == [] ==> First(choices, cleared).None?)
            && (list != [] ==>
                  cleared == SetOf(list[..|failures| % |list|])
                  && First(choices, cleared).Some? && First(choices, cleared).value.device == list[|failures| % |list|])
  {
    var list := Devices(choices, {});
    DevicesAreDistinct(choices, {});
    assert AllFailed(choices, failed) <==> SetOf(list) <= failed by {
      forall r | r in choices ensures r.device in SetOf(list) {}
    }
    if list == [] {
      assert choices == [];
    } else {
      var j := |failures| % |list|;
      NotAllYet(list, j);
      assert SetOf(list[..0]) == {};
      FirstIsNext(choices, {}, j);
      assert {} + SetOf(list[..j]) == SetOf(list[..j]);
    }
  }

  lemma NotAllYet(list: seq<DeviceId>, j: nat)
    requires j < |list| && forall a, b :: 0 <= a < b < |list| ==> list[a] != list[b]
    ensures !(SetOf(list) <= SetOf(list[..j]))
  {
    assert list[j] in SetOf(list);
    assert list[j] !in SetOf(list[..j]);
  }

  /** One more failure, of the relay whose turn it is, keeps the round going. */
  lemma FailureKeepsTheRound(failed: set<DeviceId>, failures: seq<DeviceId>, list: seq<DeviceId>)
    requires list != [] && RoundRobin(failures, list) && failed == SetOf(list[..|failures| % |list|])
    ensures FailedSoFar(failed + {list[|failures| % |list|]}, failures + [list[|failures| % |list|]], list)
  {
    var j := |failures| % |list|;
    ModStep(|failures|, |list|);
    assert list[..j + 1] == list[..j] + [list[j]];
    SetOfBack(list, j);
    if j + 1 == |list| {
      assert list[..j + 1] == list;
    }
  }

  lemma SetOfBack(list: seq<DeviceId>, j: nat)
    requires j < |list|
    ensures SetOf(list[..j + 1]) == SetOf(list[..j]) + {list[j]}
  {
    forall x | x in SetOf(list[..j]) + {list[j]} ensures x in SetOf(list[..j + 1]) {
      if x in SetOf(list[..j]) {
        var i :| 0 <= i < j && list[..j][i] == x;
        assert list[..j + 1][i] == x;
      } else {
        assert list[..j + 1][j] == x;
      }
    }
  }

  /** The rotation as the protocol carries it: the relay under way is the one
      whose turn it is. */
  predicate InTurn(p: Protocol, failures: seq<DeviceId>, list: seq<DeviceId>) {
    if p.phase.Staying? || p.phase.Checking? || p.phase.Ready? || p.phase.Behind? || p.phase.Called? then
      list != [] && RoundRobin(failures, list)
      && p.failed == SetOf(list[..|failures| % |list|])
      && p.phase.relay.device == list[|failures| % |list|]
    else FailedSoFar(p.failed, failures, list)
  }

  lemma StepKeepsTheTurn(p: Protocol, e: Event, me: DeviceId, usual: seq<Relay>, failures: seq<DeviceId>)
    requires Step(p, e, me).Some? && (e.Book? ==> e.relays == usual)
    requires InTurn(p, failures, Devices(Others(usual, me), {}))
    ensures InTurn(Step(p, e, me).value, if Failed(e) then failures + [e.relay.device] else failures,
                   Devices(Others(usual, me), {}))
  {
    hide Others, Devices, RoundRobin, SetOf;
    var choices := Others(usual, me);
    if p.phase.Choosing? {
      PickIsNextInTurn(choices, p.failed, failures);
    } else if p.phase.Behind? && Failed(e) {
      FailureKeepsTheRound(p.failed, failures, Devices(choices, {}));
    }
  }

  predicate BooksAre(log: seq<Event>, usual: seq<Relay>) {
    forall i :: 0 <= i < |log| && log[i].Book? ==> log[i].relays == usual
  }

  /** When the book is the same list throughout, the failures go round its other
      devices in the list's order, in every run. */
  lemma {:induction false} FailuresGoRound(log: seq<Event>, me: DeviceId, usual: seq<Relay>)
    requires Replay(log, me).Some? && BooksAre(log, usual)
    ensures InTurn(Replay(log, me).value, Failures(log), Devices(Others(usual, me), {}))
    ensures RoundRobin(Failures(log), Devices(Others(usual, me), {}))
  {
    hide Others, Devices, RoundRobin, SetOf, Step;
    if log == [] {
      NothingFailedYet(Devices(Others(usual, me), {}));
    } else {
      var before, e := log[..|log| - 1], log[|log| - 1];
      FailuresGoRound(before, me, usual);
      StepKeepsTheTurn(Replay(before, me).value, e, me, usual, Failures(before));
      assert Failures(before) + [] == Failures(before);
    }
  }

  lemma NothingFailedYet(list: seq<DeviceId>)
    ensures FailedSoFar({}, [], list)
  {
    assert list != [] ==> list[..0] == [];
  }

  // ------------------------------------------------------------ the loop

  /** Announce the relay, if the machine is still unreachable and the book still
      lists it. */
  method Offer(site: Site, me: DeviceId, relay: Relay, failed: set<DeviceId>) returns (offered: bool)
    requires Replay(site.log, me) == Some(Protocol(Staying(relay), failed))
    modifies site
    ensures |site.tape| <= |old(site.tape)| && (offered ==> |site.tape| < |old(site.tape)|)
    ensures Replay(site.log, me) == Some(Protocol(if offered then Behind(relay) else Leaving, failed))
  {
    hide Replay, Others, First, Cleared;
    ghost var l := site.log;
    var unreachable := site.Unreachable();
    ReplayOneMore(l, Reach(unreachable), me);
    if !unreachable {
      return false;
    }
    l := site.log;
    var relays := site.Relays();
    ReplayOneMore(l, Book(relays), me);
    if relay !in relays {
      return false;
    }
    l := site.log;
    site.Announce(Some(relay));
    ReplayOneMore(l, Announced(Some(relay)), me);
    offered := true;
  }

  /** Parked on one relay for as long as it is offered; `stop` when a caller was
      handed over and the daemon is stopping. */
  method StayParked(site: Site, me: DeviceId, relay: Relay, failed: set<DeviceId>)
    returns (stop: bool, now: set<DeviceId>)
    requires Replay(site.log, me) == Some(Protocol(Staying(relay), failed))
    modifies site
    ensures |site.tape| <= |old(site.tape)|
    ensures Replay(site.log, me) == Some(Protocol(if stop then Over else Between, now))
    ensures stop ==> site.log != [] && site.log[|site.log| - 1] == Stopping(true)
  {
    hide Replay, Others, First, Cleared;
    stop, now := false, failed;
    while true
      invariant Replay(site.log, me) == Some(Protocol(Staying(relay), failed))
      invariant now == failed && !stop && |site.tape| <= |old(site.tape)|
      decreases |site.tape|
    {
      var offered := Offer(site, me, relay, failed);
      if !offered {
        break;
      }
      ghost var l := site.log;
      var outcome := site.ParkOn(relay);
      ReplayOneMore(l, Parked(relay, outcome), me);
      l := site.log;
      if outcome.Caller? {
        var stopping := site.ShuttingDown();
        ReplayOneMore(l, Stopping(stopping), me);
        if stopping {
          stop := true;
          return;
        }
      } else {
        site.Announce(None);
        ReplayOneMore(l, Announced(None), me);
        now := now + {relay.device};
        break;
      }
    }
    ghost var l := site.log;
    site.Announce(None);
    ReplayOneMore(l, Announced(None), me);
  }

  /** What the loop ends on: a look that says stop, or a stop after a caller. */
  predicate Ends(e: Event) {
    e == Looked(false) || e == Stopping(true)
  }

  /** One look of the loop; `over` when it is the last. */
  method LookOnce(site: Site, me: DeviceId, failed: set<DeviceId>) returns (over: bool, now: set<DeviceId>)
    requires Replay(site.log, me) == Some(Protocol(Between, failed))
    modifies site
    ensures !over ==> |site.tape| < |old(site.tape)|
    ensures Replay(site.log, me) == Some(Protocol(if over then Over else Between, now))
    ensures over ==> site.log != [] && Ends(site.log[|site.log| - 1])
  {
    hide Replay;
    now := failed;
    ghost var l := site.log;
    var go := site.Wait();
    ReplayOneMore(l, Looked(go), me);
    if !go {
      return true, failed;
    }
    l := site.log;
    var unreachable := site.Unreachable();
    ReplayOneMore(l, Reach(unreachable), me);
    if !unreachable {
      return false, failed;
    }
    l := site.log;
    var relays := site.Relays();
    ReplayOneMore(l, Book(relays), me);
    var choices := Others(relays, me);
    if AllFailed(choices, failed) {
      now := {};
    }
    var pick := First(choices, now);
    if pick.None? {
      return false, now;
    }
    over, now := StayParked(site, me, pick.value, now);
  }

  /** `park_loop`: whatever the world answers, what it asks, says and does is a
      whole run of the protocol, to the end of it. */
  method ParkLoop(site: Site, me: DeviceId)
    requires site.log == []
    modifies site
    ensures Replay(site.log, me).Some? && Replay(site.log, me).value.phase == Over
    ensures site.log != [] && Ends(site.log[|site.log| - 1])
  {
    var failed: set<DeviceId> := {};
    var over := false;
    while !over
      invariant Replay(site.log, me) == Some(Protocol(if over then Over else Between, failed))
      invariant over ==> site.log != [] && Ends(site.log[|site.log| - 1])
      decreases !over, |site.tape|
    {
      over, failed := LookOnce(site, me, failed);
    }
  }

  // ------------------------------------- between two failures of a relay

  /** In every run with one list of relays, between two consecutive failures of one
      every other machine listed fails exactly once. */
  lemma EveryOtherFailsOnce(log: seq<Event>, me: DeviceId, usual: seq<Relay>, a: nat, b: nat, other: Relay)
    requires Replay(log, me).Some? && BooksAre(log, usual)
    requires a < b < |Failures(log)| && Failures(log)[a] == Failures(log)[b]
    requires Failures(log)[a] !in Failures(log)[a + 1..b]
    requires other in usual && other.device != me && other.device != Failures(log)[a]
    ensures multiset(Failures(log)[a + 1..b])[other.device] == 1
    ensures b - a == |Devices(Others(usual, me), {})|
  {
    var list := Devices(Others(usual, me), {});
    FailuresGoRound(log, me, usual);
    DevicesAreDistinct(Others(usual, me), {});
    OthersAreOthers(usual, me, other);
    hide Replay, Failures, Devices, Others, RoundRobin;
    assert other.device in SetOf(list);
    EachOnceInTurn(Failures(log), list, a, b, other.device);
  }

  /** The same of any failures that go round a list. */
  lemma EachOnceInTurn(failures: seq<DeviceId>, list: seq<DeviceId>, a: nat, b: nat, other: DeviceId)
    requires RoundRobin(failures, list) && forall i, j :: 0 <= i < j < |list| ==> list[i] != list[j]
    requires a < b < |failures| && failures[a] == failures[b] && failures[a] !in failures[a + 1..b]
    requires other in list && other != failures[a]
    ensures b == a + |list| && multiset(failures[a + 1..b])[other] == 1
  {
    NextTurnComes(failures, list, a, b);
    TurnOfTheList(failures, list, a, b);
    RotationCounts(list, a % |list|);
    OnceEach(list, other);
  }

  lemma RotationCounts(list: seq<DeviceId>, i: nat)
    requires i < |list|
    ensures multiset(list[i + 1..] + list[..i]) + multiset{list[i]} == multiset(list)
  {
    assert list == list[..i] + [list[i]] + list[i + 1..];
  }

  lemma {:induction false} OnceEach(list: seq<DeviceId>, x: DeviceId)
    requires x in list && forall i, j :: 0 <= i < j < |list| ==> list[i] != list[j]
    ensures multiset(list)[x] == 1
  {
    assert list == [list[0]] + list[1..];
    if x == list[0] {
      assert x !in list[1..];
      assert multiset(list[1..])[x] == 0;
    } else {
      OnceEach(list[1..], x);
    }
  }

  lemma ModAhead(a: nat, n: nat, i: nat, k: nat)
    requires n > 0 && i == a % n && k < n
    ensures (a + k) % n == if i + k < n then i + k else i + k - n
  {
    var q := a / n;
    if i + k < n {
      DivisionIs(a + k, n, q, i + k);
    } else {
      assert a + k == (q + 1) * n + (i + k - n);
      DivisionIs(a + k, n, q + 1, i + k - n);
    }
  }

  lemma NextTurnComes(failures: seq<DeviceId>, list: seq<DeviceId>, a: nat, b: nat)
    requires list != [] && RoundRobin(failures, list) && forall i, j :: 0 <= i < j < |list| ==> list[i] != list[j]
    requires a < b < |failures| && failures[a] == failures[b] && failures[a] !in failures[a + 1..b]
    ensures b == a + |list|
  {
    var n, i := |list|, a % |list|;
    assert a + n == (a / n + 1) * n + i;
    DivisionIs(a + n, n, a / n + 1, i);
    assert b % n == i;
    if b < a + n {
      ModAhead(a, n, i, b - a);
    }
  }

  lemma TurnOfTheList(failures: seq<DeviceId>, list: seq<DeviceId>, a: nat, b: nat)
    requires list != [] && RoundRobin(failures, list)
    requires b == a + |list| < |failures|
    ensures failures[a + 1..b] == list[a % |list| + 1..] + list[..a % |list|]
  {
    var n, i := |list|, a % |list|;
    var turn, rotated := failures[a + 1..b], list[i + 1..] + list[..i];
    forall k | 0 <= k < n - 1 ensures turn[k] == rotated[k] {
      ModAhead(a, n, i, k + 1);
      assert failures[a + (k + 1)] == list[(a + (k + 1)) % n];
    }
  }

  // --------------------------------------------- what the loop does, on its log

  /** Where the protocol stands before the `i`-th event. */
  function Before(log: seq<Event>, me: DeviceId, i: nat): Protocol
    requires i <= |log| && Replay(log[..i], me).Some?
  {
    Replay(log[..i], me).value
  }

  /** The book looked at to choose: asked for after a look that found the machine
      unreachable. */
  predicate ChoosingBook(log: seq<Event>, b: nat) {
    2 <= b < |log| && log[b].Book? && log[b - 1] == Reach(true) && log[b - 2] == Looked(true)
  }

  predicate ListsAnother(relays: seq<Relay>, me: DeviceId) {
    exists k :: 0 <= k < |relays| && relays[k].device != me
  }

  /** Every other machine listed is among these. */
  predicate AllAmong(relays: seq<Relay>, me: DeviceId, devices: set<DeviceId>) {
    forall k :: 0 <= k < |relays| && relays[k].device != me ==> relays[k].device in devices
  }

  /** The machines whose parks failed since a look found that every one listed had. */
  function FailedSince(log: seq<Event>, me: DeviceId): set<DeviceId> {
    if log == [] then {}
    else
      var n := |log| - 1;
      var before := FailedSince(log[..n], me);
      if log[n].Parked? && log[n].outcome != Caller then before + {log[n].relay.device}
      else if ChoosingBook(log, n) && AllAmong(log[n].relays, me, before) then {}
      else before
  }

  /** The first listed that is another machine and not among these. */
  predicate FirstLeft(relays: seq<Relay>, me: DeviceId, failed: set<DeviceId>, r: Relay) {
    exists k :: 0 <= k < |relays| && relays[k] == r && LeftFirstAt(relays, me, failed, k)
  }

  predicate LeftFirstAt(relays: seq<Relay>, me: DeviceId, failed: set<DeviceId>, k: nat)
    requires k < |relays|
  {
    IsLeft(relays[k], me, failed) && forall j :: 0 <= j < k ==> !IsLeft(relays[j], me, failed)
  }

  predicate IsLeft(r: Relay, me: DeviceId, failed: set<DeviceId>) {
    r.device != me && r.device !in failed
  }

  lemma AllFailedAppend(a: seq<Relay>, b: seq<Relay>, failed: set<DeviceId>)
    ensures AllFailed(a + b, failed) <==> AllFailed(a, failed) && AllFailed(b, failed)
  {
    var c := a + b;
    if AllFailed(c, failed) {
      forall i | 0 <= i < |a| ensures a[i].device in failed {
        assert c[i] == a[i];
      }
      forall i | 0 <= i < |b| ensures b[i].device in failed {
        assert c[|a| + i] == b[i];
      }
    }
  }

  lemma {:induction false} OthersAllAmong(relays: seq<Relay>, me: DeviceId, failed: set<DeviceId>)
    ensures AllFailed(Others(relays, me), failed) <==> AllAmong(relays, me, failed)
    ensures Others(relays, me) == [] <==> !ListsAnother(relays, me)
  {
    if relays != [] {
      var rest := relays[1..];
      OthersAllAmong(rest, me, failed);
      var first, others := if relays[0].device == me then [] else [relays[0]], Others(rest, me);
      assert AllFailed(first + others, failed) <==> AllFailed(first, failed) && AllFailed(others, failed) by {
        AllFailedAppend(first, others, failed);
      }
      assert forall k :: 0 <= k < |rest| ==> rest[k] == relays[k + 1];
      assert AllAmong(relays, me, failed) <==>
             (relays[0].device != me ==> relays[0].device in failed) && AllAmong(rest, me, failed) by {
        if AllAmong(relays, me, failed) {
          forall k | 0 <= k < |rest| && rest[k].device != me ensures rest[k].device in failed {
            assert relays[k + 1].device in failed;
          }
        }
      }
      if ListsAnother(rest, me) {
        var k :| 0 <= k < |rest| && rest[k].device != me;
        assert relays[k + 1].device != me;
      }
    }
  }

  lemma FirstSkips(relays: seq<Relay>, me: DeviceId, failed: set<DeviceId>)
    requires relays != []
    ensures First(Others(relays, me), failed)
         == if IsLeft(relays[0], me, failed) then Some(relays[0]) else First(Others(relays[1..], me), failed)
  {
    var others := Others(relays[1..], me);
    if relays[0].device != me {
      assert ([relays[0]] + others)[0] == relays[0] && ([relays[0]] + others)[1..] == others;
    } else {
      assert [] + others == others;
    }
  }

  lemma LeftFirstLater(relays: seq<Relay>, me: DeviceId, failed: set<DeviceId>, k: nat)
    requires k + 1 < |relays| && !IsLeft(relays[0], me, failed) && LeftFirstAt(relays[1..], me, failed, k)
    ensures LeftFirstAt(relays, me, failed, k + 1)
  {
    hide IsLeft;
    forall j | 0 <= j < k + 1 ensures !IsLeft(relays[j], me, failed) {
      assert j > 0 ==> relays[j] == relays[1..][j - 1];
    }
  }

  lemma {:induction false} FirstIsFirstLeft(relays: seq<Relay>, me: DeviceId, failed: set<DeviceId>)
    ensures var r := First(Others(relays, me), failed); r.Some? ==> FirstLeft(relays, me, failed, r.value)
  {
    if relays != [] {
      FirstSkips(relays, me, failed);
      FirstIsFirstLeft(relays[1..], me, failed);
      hide First, Others, IsLeft;
      var r := First(Others(relays[1..], me), failed);
      if IsLeft(relays[0], me, failed) {
        assert LeftFirstAt(relays, me, failed, 0);
      } else if r.Some? {
        var k :| 0 <= k < |relays[1..]| && relays[1..][k] == r.value && LeftFirstAt(relays[1..], me, failed, k);
        LeftFirstLater(relays, me, failed, k);
        assert relays[k + 1] == r.value;
      }
    }
  }

  lemma OneFirstLeft(relays: seq<Relay>, me: DeviceId, failed: set<DeviceId>, a: Relay, b: Relay)
    requires FirstLeft(relays, me, failed, a) && FirstLeft(relays, me, failed, b)
    ensures a == b
  {
  }

  /** The loop is about to choose exactly after a look that found the machine
      unreachable. */
  lemma ChoosingIff(log: seq<Event>, me: DeviceId)
    requires Replay(log, me).Some?
    ensures Replay(log, me).value.phase.Choosing?
            <==> |log| >= 2 && log[|log| - 1] == Reach(true) && log[|log| - 2] == Looked(true)
  {
    if |log| >= 2 {
      ReplayPrefix(log, me, |log| - 1);
      ReplayPrefix(log, me, |log| - 2);
      assert log[..|log|] == log && log[..|log| - 2 + 1] == log[..|log| - 1];
    } else if |log| == 1 {
      assert log[..0] == [];
    }
  }

  lemma {:induction false} FailedIsFailedSince(log: seq<Event>, me: DeviceId)
    requires Replay(log, me).Some?
    ensures Replay(log, me).value.failed == FailedSince(log, me)
  {
    if log != [] {
      var before, n := log[..|log| - 1], |log| - 1;
      FailedIsFailedSince(before, me);
      ChoosingIff(before, me);
      if log[n].Book? {
        OthersAllAmong(log[n].relays, me, FailedSince(before, me));
      }
      hide AllAmong, First, Others;
    }
  }

  /** A look that finds the machine unreachable asks for the book, and one that does
      not is followed by the next look. */
  lemma AfterALook(log: seq<Event>, me: DeviceId, i: nat)
    requires Replay(log, me).Some? && i + 1 < |log| && log[i] == Looked(true)
    ensures log[i + 1].Reach?
    ensures i + 2 < |log| && log[i + 1] == Reach(true) ==> log[i + 2].Book?
    ensures i + 2 < |log| && log[i + 1] == Reach(false) ==> log[i + 2].Looked?
  {
    ReplayPrefix(log, me, i);
    ReplayPrefix(log, me, i + 1);
    if i + 2 < |log| {
      ReplayPrefix(log, me, i + 2);
    }
    hide Replay;
  }

  /** A book that lists another machine is followed by a second thought; one that
      does not, by the next look. */
  lemma AfterTheBook(log: seq<Event>, me: DeviceId, b: nat)
    requires Replay(log, me).Some? && ChoosingBook(log, b) && b + 1 < |log|
    ensures if ListsAnother(log[b].relays, me) then log[b + 1].Reach? else log[b + 1].Looked?
    ensures var p := Replay(log[..b + 1], me);
            p.Some? && p.value.failed == FailedSince(log[..b + 1], me)
            && (p.value.phase.Staying? <==> ListsAnother(log[b].relays, me))
            && (p.value.phase.Staying? ==> FirstLeft(log[b].relays, me, p.value.failed, p.value.phase.relay))
  {
    hide Replay, Step, FailedSince, ListsAnother, FirstLeft;
    ReplayPrefix(log, me, b);
    ReplayPrefix(log, me, b + 1);
    assert log[..b][b - 1] == log[b - 1] && log[..b][b - 2] == log[b - 2];
    ChoosingIff(log[..b], me);
    FailedIsFailedSince(log[..b + 1], me);
    ChoosingStep(Before(log, me, b), log[b].relays, me);
    var p := Before(log, me, b + 1);
    if p.phase.Staying? {
      FromStaying(p, log[b + 1], me, p.phase.relay);
    } else {
      FromBetween(p, log[b + 1], me);
    }
  }

  lemma ChoosingStep(p: Protocol, relays: seq<Relay>, me: DeviceId)
    requires p.phase.Choosing?
    ensures var next := Step(p, Book(relays), me);
            next.Some?
            && if ListsAnother(relays, me)
               then next.value.phase.Staying? && FirstLeft(relays, me, next.value.failed, next.value.phase.relay)
               else next.value.phase == Between
  {
    var choices := Others(relays, me);
    OthersAllAmong(relays, me, p.failed);
    FirstIsFirstLeft(relays, me, Cleared(choices, p.failed));
    hide FirstLeft, ListsAnother, AllAmong, Others;
    assert choices != [] ==> choices[0].device !in {};
    assert choices != [] ==> !AllFailed(choices, Cleared(choices, p.failed));
  }

  /** The steps while a relay is stayed with. */
  lemma FromStaying(p: Protocol, e: Event, me: DeviceId, r: Relay)
    requires p.phase == Staying(r) && Step(p, e, me).Some?
    ensures e.Reach? && Step(p, e, me).value.phase == if e.unreachable then Checking(r) else Leaving
  {
  }

  lemma FromChecking(p: Protocol, e: Event, me: DeviceId, r: Relay)
    requires p.phase == Checking(r) && Step(p, e, me).Some?
    ensures e.Book? && Step(p, e, me).value.phase == if r in e.relays then Ready(r) else Leaving
  {
  }

  lemma FromReady(p: Protocol, e: Event, me: DeviceId, r: Relay)
    requires p.phase == Ready(r) && Step(p, e, me).Some?
    ensures e == Announced(Some(r)) && Step(p, e, me).value.phase == Behind(r)
  {
  }

  lemma FromBehind(p: Protocol, e: Event, me: DeviceId, r: Relay)
    requires p.phase == Behind(r) && Step(p, e, me).Some?
    ensures e.Parked? && e.relay == r && Step(p, e, me).value.phase == if e.outcome.Caller? then Called(r) else Dropped
  {
  }

  lemma FromCalled(p: Protocol, e: Event, me: DeviceId, r: Relay)
    requires p.phase == Called(r) && Step(p, e, me).Some?
    ensures e.Stopping? && Step(p, e, me).value.phase == if e.stopping then Over else Staying(r)
  {
  }

  lemma FromDropped(p: Protocol, e: Event, me: DeviceId)
    requires p.phase == Dropped && Step(p, e, me).Some?
    ensures e == Announced(None) && Step(p, e, me).value.phase == Leaving
  {
  }

  lemma FromLeaving(p: Protocol, e: Event, me: DeviceId)
    requires p.phase == Leaving && Step(p, e, me).Some?
    ensures e == Announced(None) && Step(p, e, me).value.phase == Between
  {
  }

  lemma FromBetween(p: Protocol, e: Event, me: DeviceId)
    requires p.phase == Between && Step(p, e, me).Some?
    ensures e.Looked?
  {
  }

  lemma NothingAfterTheEnd(p: Protocol, e: Event, me: DeviceId)
    ensures p.phase == Over ==> Step(p, e, me).None?
  {
  }

  /** Staying with a relay: unreachable still, the book is asked for again; and if
      it lists that very relay the machine is announced behind it, then parks. */
  lemma WhileStaying(log: seq<Event>, me: DeviceId, i: nat, r: Relay)
    requires Replay(log, me).Some? && i < |log|
    requires Replay(log[..i], me).Some? && Replay(log[..i], me).value.phase == Staying(r)
    ensures log[i].Reach?
    ensures i + 1 < |log| ==> if log[i] == Reach(true) then log[i + 1].Book? else log[i + 1] == Announced(None)
    ensures i + 2 < |log| && log[i] == Reach(true) ==>
              log[i + 2] == Announced(if r in log[i + 1].relays then Some(r) else None)
    ensures i + 3 < |log| && log[i] == Reach(true) && r in log[i + 1].relays ==>
              log[i + 3].Parked? && log[i + 3].relay == r
  {
    hide Replay, Step;
    ReplayPrefix(log, me, i);
    FromStaying(Before(log, me, i), log[i], me, r);
    if i + 1 < |log| {
      ReplayPrefix(log, me, i + 1);
      if log[i] != Reach(true) {
        FromLeaving(Before(log, me, i + 1), log[i + 1], me);
      } else {
        FromChecking(Before(log, me, i + 1), log[i + 1], me, r);
        AfterChecking(log, me, i + 2, r, r in log[i + 1].relays);
      }
    }
  }

  lemma AfterChecking(log: seq<Event>, me: DeviceId, j: nat, r: Relay, listed: bool)
    requires Replay(log, me).Some? && 0 < j <= |log| && Replay(log[..j], me).Some?
    requires Replay(log[..j], me).value.phase == if listed then Ready(r) else Leaving
    ensures j < |log| ==> log[j] == Announced(if listed then Some(r) else None)
    ensures j + 1 < |log| && listed ==> log[j + 1].Parked? && log[j + 1].relay == r
  {
    hide Replay, Step;
    if j < |log| {
      ReplayPrefix(log, me, j);
      if listed {
        FromReady(Before(log, me, j), log[j], me, r);
        if j + 1 < |log| {
          ReplayPrefix(log, me, j + 1);
          FromBehind(Before(log, me, j + 1), log[j + 1], me, r);
        }
      } else {
        FromLeaving(Before(log, me, j), log[j], me);
      }
    }
  }

  /** The whole choice, on any log of the loop: after a book that lists another
      machine comes the reachability; if the machine is still unreachable, the book
      again; if it still lists the relay chosen, the announcement behind it and the
      park. The relay is the first listed that has not failed since all had. */
  lemma ChoiceIsParkedOn(log: seq<Event>, me: DeviceId, b: nat, r: Relay)
    requires Replay(log, me).Some? && ChoosingBook(log, b) && ListsAnother(log[b].relays, me) && b + 1 < |log|
    requires FirstLeft(log[b].relays, me, FailedSince(log[..b + 1], me), r)
    ensures log[b + 1].Reach?
    ensures b + 2 < |log| ==> if log[b + 1] == Reach(true) then log[b + 2].Book? else log[b + 2] == Announced(None)
    ensures b + 3 < |log| && log[b + 1] == Reach(true) ==>
              log[b + 3] == Announced(if r in log[b + 2].relays then Some(r) else None)
    ensures b + 4 < |log| && log[b + 1] == Reach(true) && r in log[b + 2].relays ==>
              log[b + 4].Parked? && log[b + 4].relay == r
  {
    hide Replay, FirstLeft, FailedSince, ListsAnother;
    AfterTheBook(log, me, b);
    var p := Replay(log[..b + 1], me).value;
    OneFirstLeft(log[b].relays, me, p.failed, p.phase.relay, r);
    WhileStaying(log, me, b + 1, r);
  }

  /** There is always such a relay. */
  lemma SomebodyIsLeft(log: seq<Event>, me: DeviceId, b: nat) returns (r: Relay)
    requires Replay(log, me).Some? && ChoosingBook(log, b) && ListsAnother(log[b].relays, me) && b + 1 < |log|
    ensures FirstLeft(log[b].relays, me, FailedSince(log[..b + 1], me), r)
  {
    AfterTheBook(log, me, b);
    r := Replay(log[..b + 1], me).value.phase.relay;
  }

  /** How each of these is come to. */
  lemma IntoBehind(p: Protocol, e: Event, me: DeviceId, r: Relay)
    requires Step(p, e, me).Some?
    ensures Step(p, e, me).value.phase == Behind(r) ==> e == Announced(Some(r)) && p.phase == Ready(r)
    ensures Step(p, e, me).value.phase == Ready(r) ==> e.Book? && r in e.relays && p.phase == Checking(r)
    ensures Step(p, e, me).value.phase == Checking(r) ==> e == Reach(true) && p.phase == Staying(r)
  {
  }

  /** The event before a moment, and where the loop stood before it. */
  lemma LastOf(log: seq<Event>, me: DeviceId, i: nat)
    requires Replay(log, me).Some? && i <= |log|
    ensures Replay(log[..i], me).Some?
    ensures i == 0 ==> Replay(log[..i], me).value.phase == Between
    ensures i > 0 ==> Replay(log[..i - 1], me).Some?
                      && Step(Replay(log[..i - 1], me).value, log[i - 1], me) == Replay(log[..i], me)
  {
    if i > 0 {
      ReplayPrefix(log, me, i - 1);
    } else {
      assert log[..0] == [];
    }
  }

  /** A park has, just before it, the announcement behind that relay, a book that
      lists it and the machine found unreachable. */
  lemma BeforeAPark(log: seq<Event>, me: DeviceId, i: nat)
    requires Replay(log, me).Some? && i < |log| && log[i].Parked?
    ensures i >= 3 && log[i - 1] == Announced(Some(log[i].relay)) && log[i - 3] == Reach(true)
    ensures log[i - 2].Book? && log[i].relay in log[i - 2].relays
  {
    ReplayPrefix(log, me, i);
    var r := log[i].relay;
    assert Replay(log[..i], me).value.phase == Behind(r);
    hide Replay, Step;
    LastOf(log, me, i);
    IntoBehind(Before(log, me, i - 1), log[i - 1], me, r);
    LastOf(log, me, i - 1);
    IntoBehind(Before(log, me, i - 2), log[i - 2], me, r);
    LastOf(log, me, i - 2);
    IntoBehind(Before(log, me, i - 3), log[i - 3], me, r);
  }

  lemma ParkedLeaves(p: Protocol, e: Event, me: DeviceId)
    requires e.Parked? && Step(p, e, me).Some?
    ensures Step(p, e, me).value.phase == if e.outcome.Caller? then Called(e.relay) else Dropped
  {
  }

  /** After a park that failed the announcement is taken back, twice over, and the
      next look comes. */
  lemma AfterAFailedPark(log: seq<Event>, me: DeviceId, i: nat)
    requires Replay(log, me).Some? && i + 1 < |log| && log[i].Parked? && log[i].outcome != Caller
    ensures log[i + 1] == Announced(None)
    ensures i + 2 < |log| ==> log[i + 2] == Announced(None)
    ensures i + 3 < |log| ==> log[i + 3].Looked?
  {
    hide Replay, Step;
    ReplayPrefix(log, me, i);
    ParkedLeaves(Before(log, me, i), log[i], me);
    ReplayPrefix(log, me, i + 1);
    FromDropped(Before(log, me, i + 1), log[i + 1], me);
    if i + 2 < |log| {
      ReplayPrefix(log, me, i + 2);
      FromLeaving(Before(log, me, i + 2), log[i + 2], me);
      if i + 3 < |log| {
        ReplayPrefix(log, me, i + 3);
        FromBetween(Before(log, me, i + 3), log[i + 3], me);
      }
    }
  }

  /** After a caller was handed over the loop ends if the daemon is stopping, and
      otherwise stays with the relay: unreachable still and listed still, it parks
      there again. */
  lemma AfterACaller(log: seq<Event>, me: DeviceId, i: nat)
    requires Replay(log, me).Some? && i + 1 < |log| && log[i].Parked? && log[i].outcome == Caller
    ensures log[i + 1].Stopping? && (log[i + 1] == Stopping(true) ==> |log| == i + 2)
    ensures i + 2 < |log| ==> log[i + 2].Reach?
    ensures i + 3 < |log| ==> if log[i + 2] == Reach(true) then log[i + 3].Book? else log[i + 3] == Announced(None)
    ensures i + 4 < |log| && log[i + 2] == Reach(true) ==>
              log[i + 4] == Announced(if log[i].relay in log[i + 3].relays then Some(log[i].relay) else None)
    ensures i + 5 < |log| && log[i + 2] == Reach(true) && log[i].relay in log[i + 3].relays ==>
              log[i + 5].Parked? && log[i + 5].relay == log[i].relay
  {
    hide Replay, Step;
    var r := log[i].relay;
    ReplayPrefix(log, me, i);
    ParkedLeaves(Before(log, me, i), log[i], me);
    ReplayPrefix(log, me, i + 1);
    FromCalled(Before(log, me, i + 1), log[i + 1], me, r);
    if i + 2 < |log| {
      ReplayPrefix(log, me, i + 2);
      NothingAfterTheEnd(Before(log, me, i + 2), log[i + 2], me);
      WhileStaying(log, me, i + 2, r);
    }
  }
}
