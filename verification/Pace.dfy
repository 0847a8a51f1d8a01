/** What the daemon's loop writes and says, and how often: the snapshot's pace
    and the coordinator's outages, from `crates/itsanas-cli/src/daemon.rs`. */
module Pace {
  import opened Arithmetic
  import opened Text
  import opened Steering

  const SNAPSHOT_EVERY: Duration := 30 * SECOND
  const OUTAGE_QUIET: Duration := 1800 * SECOND

  // ----------------------------------------------------- the snapshot

  /** When the snapshot was last written, and for which interval. */
  type Stamp = Option<(Instant, Duration)>

  /** One pass of the loop: the instant, the interval in force, and whether the
      pass ran a round or took in a change. */
  datatype Pass = Pass(now: Instant, interval: Duration, news: bool)

  /** `saturating_duration_since`. */
  function Since(now: Instant, earlier: Instant): Duration {
    if now < earlier then 0 else now - earlier
  }

  /** The longest a snapshot of this interval is left unwritten. */
  function Patience(interval: Duration): Duration {
    Min(SNAPSHOT_EVERY, interval)
  }

  predicate SnapshotDue(last: Stamp, p: Pass) {
    last.None? || p.news || last.value.1 != p.interval || Since(p.now, last.value.0) >= Patience(p.interval)
  }

  function AfterPass(last: Stamp, p: Pass): Stamp {
    if SnapshotDue(last, p) then Some((p.now, p.interval)) else last
  }

  class SnapshotPace {
    var last: Stamp

    constructor ()
      ensures last == None
    {
      last := None;
    }

    /** `SnapshotPace::after`; `wrote` is whether the snapshot was written. */
    method After(p: Pass) returns (wrote: bool)
      modifies this
      ensures wrote == SnapshotDue(old(last), p) && last == AfterPass(old(last), p)
    {
      wrote := last.None?;
      if last.Some? {
        var (at, writtenFor) := last.value;
        wrote := p.news || writtenFor != p.interval || Since(p.now, at) >= Min(SNAPSHOT_EVERY, p.interval);
      }
      if wrote {
        last := Some((p.now, p.interval));
      }
    }
  }

  /** The instants of the writes of a run of passes. */
  function Writes(last: Stamp, ps: seq<Pass>): seq<Instant>
    decreases |ps|
  {
    if ps == [] then []
    else (if SnapshotDue(last, ps[0]) then [ps[0].now] else []) + Writes(AfterPass(last, ps[0]), ps[1..])
  }

  /** Passes in order, the first at or after `t`, each at most `d` after the one
      before, with intervals of at least `low` and at most `high`. */
  predicate Paced(t: Instant, ps: seq<Pass>, d: Duration, low: Duration, high: Duration)
    decreases |ps|
  {
    ps == [] || (t <= ps[0].now <= t + d && low <= ps[0].interval <= high && Paced(ps[0].now, ps[1..], d, low, high))
  }

  predicate Spaced(ws: seq<Instant>, most: nat) {
    forall i :: 0 <= i < |ws| - 1 ==> ws[i + 1] < ws[i] + most
  }

  /** A stamp an idle daemon can be judged by: however the news fall and the
      interval moves, two consecutive writes are less than the patience of the
      longest interval plus one pass apart. */
  lemma {:induction false} SnapshotNeverStale(last: Stamp, t: Instant, ps: seq<Pass>, d: Duration, high: Duration)
    requires high > 0 && Paced(t, ps, d, 1, high)
    requires last.Some? ==> last.value.0 <= t < last.value.0 + Patience(high)
    ensures Spaced(Writes(last, ps), Patience(high) + d)
    ensures last.Some? && Writes(last, ps) != [] ==> Writes(last, ps)[0] < last.value.0 + Patience(high) + d
    decreases |ps|
  {
    if ps != [] {
      var next := AfterPass(last, ps[0]);
      SnapshotNeverStale(next, ps[0].now, ps[1..], d, high);
      var rest := Writes(next, ps[1..]);
      if SnapshotDue(last, ps[0]) {
        assert Writes(last, ps) == [ps[0].now] + rest;
      } else {
        assert Writes(last, ps) == rest;
      }
    }
  }

  /** The same from the daemon's start, with one interval throughout. */
  lemma SnapshotNeverStaleFromStart(t: Instant, ps: seq<Pass>, d: Duration, interval: Duration)
    requires interval > 0 && Paced(t, ps, d, interval, interval)
    ensures Spaced(Writes(None, ps), Min(SNAPSHOT_EVERY, interval) + d)
  {
    PacedLoosely(t, ps, d, interval);
    SnapshotNeverStale(None, t, ps, d, interval);
  }

  lemma {:induction false} PacedLoosely(t: Instant, ps: seq<Pass>, d: Duration, interval: Duration)
    requires interval > 0 && Paced(t, ps, d, interval, interval)
    ensures Paced(t, ps, d, 1, interval)
    decreases |ps|
  {
    if ps != [] {
      PacedLoosely(ps[0].now, ps[1..], d, interval);
    }
  }

  /** Passes with news, and passes whose interval is not the one before's. */
  function Reasons(interval: Duration, ps: seq<Pass>): nat
    decreases |ps|
  {
    if ps == [] then 0
    else Count(ps[0].news) + Count(ps[0].interval != interval) + Reasons(ps[0].interval, ps[1..])
  }

  function LastNow(t: Instant, ps: seq<Pass>): Instant
    decreases |ps|
  {
    if ps == [] then t else LastNow(ps[0].now, ps[1..])
  }

  /** Whether a pass writes with nothing new to say: the heartbeat alone. */
  predicate Heartbeat(last: Stamp, p: Pass)
    requires last.Some?
  {
    SnapshotDue(last, p) && !p.news && p.interval == last.value.1
  }

  /** From any stamp, the writes beyond the news and the changes of interval are
      a patience apart. */
  lemma {:induction false} HeartbeatsAreSpaced(last: Stamp, t: Instant, ps: seq<Pass>, d: Duration, low: Duration,
                                               high: Duration)
    requires last.Some? && last.value.0 <= t && Paced(t, ps, d, low, high)
    ensures (|Writes(last, ps)| - Reasons(last.value.1, ps)) * Patience(low) <= LastNow(t, ps) - last.value.0
    decreases |ps|
  {
    if ps == [] {
    } else {
      var next := AfterPass(last, ps[0]);
      HeartbeatsAreSpaced(next, ps[0].now, ps[1..], d, low, high);
      var u := |Writes(last, ps)| - Reasons(last.value.1, ps);
      var v := |Writes(next, ps[1..])| - Reasons(next.value.1, ps[1..]);
      assert next.value.1 == ps[0].interval;
      OneMore(u, v, Heartbeat(last, ps[0]), Patience(low));
    }
  }

  lemma {:induction false} LastNowIsLater(t: Instant, ps: seq<Pass>, d: Duration, low: Duration, high: Duration)
    requires Paced(t, ps, d, low, high)
    ensures t <= LastNow(t, ps)
    decreases |ps|
  {
    if ps != [] {
      LastNowIsLater(ps[0].now, ps[1..], d, low, high);
    }
  }

  /** An idle node's disk: over any run the writes are at most one, plus the
      passes with news, plus the changes of interval, plus the length of the run
      over the patience of the shortest interval. */
  lemma SnapshotWritesBounded(t: Instant, ps: seq<Pass>, d: Duration, low: Duration, high: Duration)
    requires low > 0 && ps != [] && Paced(t, ps, d, low, high)
    ensures |Writes(None, ps)| <= 1 + Reasons(ps[0].interval, ps[1..]) + (LastNow(t, ps) - t) / Patience(low)
  {
    var p := ps[0];
    var next := AfterPass(None, p);
    HeartbeatsAreSpaced(next, p.now, ps[1..], d, low, high);
    LastNowIsLater(p.now, ps[1..], d, low, high);
    var k := |Writes(next, ps[1..])| - Reasons(p.interval, ps[1..]);
    DivBound(k, Patience(low), LastNow(t, ps) - t);
  }

  // ------------------------------------------------------- the outages

  datatype Said = Unreachable | StillUnreachable(rounds: nat) | ReachableAgain

  /** A round's dealing with the coordinator. A failure is looked at at `now`
      and, if it is said, the quiet starts at `stamped`. */
  datatype Attempt = Failure(now: Instant, stamped: Instant) | Success(now: Instant)

  datatype OutageState = OutageState(silentRounds: nat, nextComplaint: Instant, wasReachable: bool)

  function NewOutage(now: Instant): OutageState {
    OutageState(0, now, true)
  }

  function SaidAt(o: OutageState, a: Attempt): seq<Said> {
    match a
    case Failure(now, _) =>
      if now < o.nextComplaint then []
      else if o.silentRounds == 0 then [Unreachable]
      else [StillUnreachable(o.silentRounds + 1)]
    case Success(_) => if o.wasReachable then [] else [ReachableAgain]
  }

  function AfterAttempt(o: OutageState, a: Attempt): OutageState {
    match a
    case Failure(now, stamped) =>
      if now < o.nextComplaint then o.(silentRounds := o.silentRounds + 1)
      else OutageState(o.silentRounds + 1, stamped + OUTAGE_QUIET, false)
    case Success(now) => OutageState(0, now, true)
  }

  class Outage {
    var silentRounds: nat
    var nextComplaint: Instant
    var wasReachable: bool

    ghost function View(): OutageState
      reads this
    {
      OutageState(silentRounds, nextComplaint, wasReachable)
    }

    constructor (now: Instant)
      ensures View() == NewOutage(now)
    {
      silentRounds, nextComplaint, wasReachable := 0, now, true;
    }

    method Failed(now: Instant, stamped: Instant) returns (said: seq<Said>)
      modifies this
      ensures View() == AfterAttempt(old(View()), Failure(now, stamped))
      ensures said == SaidAt(old(View()), Failure(now, stamped))
    {
      silentRounds := silentRounds + 1;
      if now < nextComplaint {
        return [];
      }
      said := if silentRounds == 1 then [Unreachable] else [StillUnreachable(silentRounds)];
      nextComplaint := stamped + OUTAGE_QUIET;
      wasReachable := false;
    }

    method Succeeded(now: Instant) returns (said: seq<Said>)
      modifies this
      ensures View() == AfterAttempt(old(View()), Success(now))
      ensures said == SaidAt(old(View()), Success(now))
    {
      said := if wasReachable then [] else [ReachableAgain];
      silentRounds := 0;
      nextComplaint := now;
      wasReachable := true;
    }
  }

  predicate InOrder(t: Instant, attempts: seq<Attempt>)
    decreases |attempts|
  {
    attempts == [] ||
    match attempts[0]
    case Failure(now, stamped) => t <= now <= stamped && InOrder(stamped, attempts[1..])
    case Success(now) => t <= now && InOrder(now, attempts[1..])
  }

  function Log(o: OutageState, attempts: seq<Attempt>): seq<Said>
    decreases |attempts|
  {
    if attempts == [] then [] else SaidAt(o, attempts[0]) + Log(AfterAttempt(o, attempts[0]), attempts[1..])
  }

  /** The failures since the last success, from the attempts alone. */
  function FailuresInARow(before: nat, attempts: seq<Attempt>): nat {
    if attempts == [] then before
    else if attempts[|attempts| - 1].Success? then 0
    else FailuresInARow(before, attempts[..|attempts| - 1]) + 1
  }

  /** Nothing is kept quiet while the coordinator is reachable, and an outage
      that has begun has been said. */
  predicate Honest(o: OutageState, t: Instant) {
    (o.wasReachable <==> o.silentRounds == 0) && (o.wasReachable ==> o.nextComplaint <= t)
  }

  /** What a reader of the log takes the coordinator for: reachable until
      `Unreachable` is said, then down until `ReachableAgain`. */
  function Down(before: bool, log: seq<Said>): bool {
    if log == [] then before else !log[|log| - 1].ReachableAgain?
  }

  /** The log opens every outage with `Unreachable`, closes it with
      `ReachableAgain`, and says nothing else out of turn. */
  predicate WellTold(down: bool, log: seq<Said>)
    decreases |log|
  {
    log == [] ||
    match log[0]
    case Unreachable => !down && WellTold(true, log[1..])
    case StillUnreachable(_) => down && WellTold(true, log[1..])
    case ReachableAgain => down && WellTold(false, log[1..])
  }

  /** Every outage is said on its first failed round, ended on the first
      success, and the log alone tells at any time whether the last round
      reached the coordinator. */
  lemma {:induction false} OutagesAreWellTold(o: OutageState, t: Instant, attempts: seq<Attempt>)
    requires Honest(o, t) && InOrder(t, attempts)
    ensures WellTold(!o.wasReachable, Log(o, attempts))
    ensures attempts != [] ==> (Down(!o.wasReachable, Log(o, attempts)) <==> attempts[|attempts| - 1].Failure?)
    decreases |attempts|
  {
    if attempts != [] {
      var a := attempts[0];
      var next := AfterAttempt(o, a);
      HonestAfter(o, t, a);
      OutagesAreWellTold(next, if a.Failure? then a.stamped else a.now, attempts[1..]);
      ToldFirst(o, t, a, Log(next, attempts[1..]));
    }
  }

  lemma HonestAfter(o: OutageState, t: Instant, a: Attempt)
    requires Honest(o, t) && t <= a.now && (a.Failure? ==> a.now <= a.stamped)
    ensures Honest(AfterAttempt(o, a), if a.Failure? then a.stamped else a.now)
  {
  }

  lemma ToldFirst(o: OutageState, t: Instant, a: Attempt, rest: seq<Said>)
    requires Honest(o, t) && t <= a.now && WellTold(!AfterAttempt(o, a).wasReachable, rest)
    ensures WellTold(!o.wasReachable, SaidAt(o, a) + rest)
    ensures rest == [] ==> (Down(!o.wasReachable, SaidAt(o, a) + rest) <==> a.Failure?)
    ensures rest != [] ==> Down(!o.wasReachable, SaidAt(o, a) + rest) == Down(!AfterAttempt(o, a).wasReachable, rest)
  {
    var said := SaidAt(o, a);
    assert said == [] || (|said| == 1 && (said + rest)[1..] == rest);
    assert said == [] ==> said + rest == rest;
  }

  lemma {:induction false} FailuresAppend(before: nat, attempts: seq<Attempt>)
    requires attempts != []
    ensures FailuresInARow(before, attempts)
         == FailuresInARow(if attempts[0].Success? then 0 else before + 1, attempts[1..])
  {
    var most := attempts[..|attempts| - 1];
    if most == [] {
      assert attempts == [attempts[0]];
    } else {
      FailuresAppend(before, most);
      assert most[1..] == attempts[1..][..|attempts| - 2];
    }
  }

  function Final(o: OutageState, attempts: seq<Attempt>): OutageState
    decreases |attempts|
  {
    if attempts == [] then o else Final(AfterAttempt(o, attempts[0]), attempts[1..])
  }

  /** The number a complaint names is the rounds failed since the last success,
      over every run. */
  lemma {:induction false} ComplaintsCountTheOutage(o: OutageState, attempts: seq<Attempt>, next: Attempt)
    ensures Final(o, attempts).silentRounds == FailuresInARow(o.silentRounds, attempts)
    ensures forall n :: SaidAt(Final(o, attempts), next) == [StillUnreachable(n)]
                        ==> n == FailuresInARow(o.silentRounds, attempts + [next])
    decreases |attempts|
  {
    assert (attempts + [next])[..|attempts + [next]| - 1] == attempts;
    if attempts != [] {
      ComplaintsCountTheOutage(AfterAttempt(o, attempts[0]), attempts[1..], next);
      FailuresAppend(o.silentRounds, attempts);
      assert (attempts[1..] + [next])[..|attempts[1..] + [next]| - 1] == attempts[1..];
    }
  }

  predicate OnlyFailures(attempts: seq<Attempt>) {
    forall i :: 0 <= i < |attempts| ==> attempts[i].Failure?
  }

  function LastFailure(t: Instant, attempts: seq<Attempt>): Instant
    requires OnlyFailures(attempts)
    decreases |attempts|
  {
    if attempts == [] then t else LastFailure(attempts[0].stamped, attempts[1..])
  }

  /** Within one outage the complaints are a quiet half hour apart, however
      often the daemon tries. */
  lemma {:induction false} ComplaintsAreSpaced(o: OutageState, t: Instant, attempts: seq<Attempt>)
    requires OnlyFailures(attempts) && InOrder(t, attempts)
    ensures |Log(o, attempts)| * OUTAGE_QUIET <= Since(LastFailure(t, attempts) + OUTAGE_QUIET, o.nextComplaint)
    ensures t <= LastFailure(t, attempts)
    decreases |attempts|
  {
    if attempts != [] {
      var a := attempts[0];
      ComplaintsAreSpaced(AfterAttempt(o, a), a.stamped, attempts[1..]);
    }
  }

  /** So an outage of any length says at most one line more than its half hours. */
  lemma OutageLinesBounded(start: Instant, t: Instant, attempts: seq<Attempt>)
    requires start <= t && OnlyFailures(attempts) && InOrder(t, attempts)
    ensures |Log(NewOutage(start), attempts)| <= 1 + (LastFailure(t, attempts) - t) / OUTAGE_QUIET
  {
    if attempts != [] {
      var a := attempts[0];
      ComplaintsAreSpaced(AfterAttempt(NewOutage(start), a), a.stamped, attempts[1..]);
      DivBound(|Log(AfterAttempt(NewOutage(start), a), attempts[1..])|, OUTAGE_QUIET, LastFailure(t, attempts) - t);
    }
  }

  // ------------------------------------------- the writes, from the passes alone

  /** Whether a pass after this written one is written: it has news, it is for
      another interval, or half a minute has passed, or an interval if shorter. */
  predicate ShouldWrite(written: Option<Pass>, p: Pass) {
    written.None? || p.news || p.interval != written.value.interval
    || Min(30_000_000_000, p.interval) == 0
    || p.now >= written.value.now + Min(30_000_000_000, p.interval)
  }

  /** The last pass written. */
  function LastWritten(ps: seq<Pass>): Option<Pass> {
    if ps == [] then None
    else
      var before, p := LastWritten(ps[..|ps| - 1]), ps[|ps| - 1];
      if ShouldWrite(before, p) then Some(p) else before
  }

  function Instants(ps: seq<Pass>): seq<Instant> {
    if ps == [] then []
    else
      var most, p := ps[..|ps| - 1], ps[|ps| - 1];
      Instants(most) + if ShouldWrite(LastWritten(most), p) then [p.now] else []
  }

  function StampAfter(ps: seq<Pass>): Stamp {
    if ps == [] then None else AfterPass(StampAfter(ps[..|ps| - 1]), ps[|ps| - 1])
  }

  lemma {:induction false} StampIsLastWritten(ps: seq<Pass>)
    ensures StampAfter(ps)
         == match LastWritten(ps) case None => None case Some(p) => Some((p.now, p.interval))
  {
    if ps != [] {
      StampIsLastWritten(ps[..|ps| - 1]);
    }
  }

  lemma {:induction false} WritesFrom(done: seq<Pass>, ps: seq<Pass>)
    ensures Instants(done + ps) == Instants(done) + Writes(StampAfter(done), ps)
    decreases |ps|
  {
    if ps == [] {
      assert done + ps == done;
    } else {
      var more := done + [ps[0]];
      assert more[..|more| - 1] == done && more + ps[1..] == done + ps;
      StampIsLastWritten(done);
      WritesFrom(more, ps[1..]);
      hide Writes, Instants;
      WritesFirst(StampAfter(done), ps);
      InstantsLast(done, ps[0]);
    }
  }

  lemma WritesFirst(last: Stamp, ps: seq<Pass>)
    requires ps != []
    ensures Writes(last, ps)
         == (if SnapshotDue(last, ps[0]) then [ps[0].now] else []) + Writes(AfterPass(last, ps[0]), ps[1..])
  {
  }

  lemma InstantsLast(done: seq<Pass>, p: Pass)
    ensures Instants(done + [p]) == Instants(done) + if ShouldWrite(LastWritten(done), p) then [p.now] else []
  {
    assert (done + [p])[..|done + [p]| - 1] == done;
  }

  /** The snapshot is written exactly by the passes that should: in every run, the
      first, those with news or another interval than the last written, and those
      at or past half a minute, or an interval if shorter, since it. */
  lemma SnapshotWrittenExactly(ps: seq<Pass>)
    ensures Writes(None, ps) == Instants(ps)
  {
    WritesFrom([], ps);
    assert [] + ps == ps;
  }

  // -------------------------------------- the outage lines, from the attempts alone

  /** When the quiet of the outage under way last began. */
  function LastComplaint(attempts: seq<Attempt>): Option<Instant> {
    if attempts == [] then None
    else
      var before, a := LastComplaint(attempts[..|attempts| - 1]), attempts[|attempts| - 1];
      if a.Success? then None
      else if before.None? || a.now >= before.value + 1_800_000_000_000 then Some(a.stamped)
      else before
  }

  /** The line an attempt is worth: the first failure and the first success always,
      and in between a failure half an hour past the last line. */
  function Worth(attempts: seq<Attempt>, a: Attempt): seq<Said> {
    var failed, quiet := FailuresInARow(0, attempts), LastComplaint(attempts);
    if a.Success? then if failed > 0 then [ReachableAgain] else []
    else if failed == 0 then [Unreachable]
    else if quiet.None? || a.now >= quiet.value + 1_800_000_000_000 then [StillUnreachable(failed + 1)]
    else []
  }

  /** The instant an attempt is over. */
  function OverAt(t: Instant, attempts: seq<Attempt>): Instant {
    if attempts == [] then t
    else if attempts[|attempts| - 1].Failure? then attempts[|attempts| - 1].stamped
    else attempts[|attempts| - 1].now
  }

  /** What an outage keeps: the failures in a row, and when the quiet ends. */
  predicate Remembers(o: OutageState, failed: nat, quiet: Option<Instant>, t: Instant) {
    o.silentRounds == failed && (failed == 0 <==> quiet.None?) && o.wasReachable == quiet.None?
    && (quiet.None? ==> o.nextComplaint <= t)
    && (quiet.Some? ==> o.nextComplaint == quiet.value + 1_800_000_000_000)
  }

  lemma RemembersFailure(o: OutageState, failed: nat, quiet: Option<Instant>, t: Instant, a: Attempt)
    requires Remembers(o, failed, quiet, t) && a.Failure? && t <= a.now
    ensures var begun := if quiet.None? || a.now >= quiet.value + 1_800_000_000_000 then Some(a.stamped) else quiet;
            Remembers(AfterAttempt(o, a), failed + 1, begun, a.stamped)
  {
  }

  lemma {:induction false} OutageRemembers(start: Instant, attempts: seq<Attempt>)
    requires InOrder(start, attempts)
    ensures Remembers(Final(NewOutage(start), attempts), FailuresInARow(0, attempts), LastComplaint(attempts),
                      OverAt(start, attempts))
  {
    if attempts != [] {
      var most, a := attempts[..|attempts| - 1], attempts[|attempts| - 1];
      InOrderSplit(start, attempts);
      OutageRemembers(start, most);
      FinalOneMore(NewOutage(start), most, a);
      assert attempts == most + [a];
      var o, failed, quiet := Final(NewOutage(start), most), FailuresInARow(0, most), LastComplaint(most);
      if a.Failure? {
        RemembersFailure(o, failed, quiet, OverAt(start, most), a);
        hide Final, InOrder, Remembers, AfterAttempt;
      }
    }
  }

  lemma {:induction false} FinalOneMore(o: OutageState, attempts: seq<Attempt>, a: Attempt)
    ensures Final(o, attempts + [a]) == AfterAttempt(Final(o, attempts), a)
    decreases |attempts|
  {
    if attempts == [] {
      assert (attempts + [a])[1..] == [];
    } else {
      assert (attempts + [a])[0] == attempts[0] && (attempts + [a])[1..] == attempts[1..] + [a];
      FinalOneMore(AfterAttempt(o, attempts[0]), attempts[1..], a);
    }
  }

  lemma {:induction false} InOrderSplit(t: Instant, attempts: seq<Attempt>)
    requires attempts != [] && InOrder(t, attempts)
    ensures InOrder(t, attempts[..|attempts| - 1])
    ensures var most, a := attempts[..|attempts| - 1], attempts[|attempts| - 1];
            OverAt(t, most) <= a.now && (a.Failure? ==> a.now <= a.stamped)
    decreases |attempts|
  {
    if |attempts| > 1 {
      var first, rest := attempts[0], attempts[1..];
      var next := if first.Failure? then first.stamped else first.now;
      InOrderSplit(next, rest);
      assert attempts[..|attempts| - 1][1..] == rest[..|rest| - 1];
      assert attempts[..|attempts| - 1][0] == first;
    }
  }

  /** Every line of every run, exactly. */
  lemma TheLines(start: Instant, attempts: seq<Attempt>, a: Attempt)
    requires InOrder(start, attempts + [a])
    ensures SaidAt(Final(NewOutage(start), attempts), a) == Worth(attempts, a)
  {
    InOrderSplit(start, attempts + [a]);
    assert (attempts + [a])[..|attempts + [a]| - 1] == attempts;
    OutageRemembers(start, attempts);
    hide Final, InOrder;
  }
}
