/** What a CI run has to test, from what it changed: `scripts/ci_scope.py`. */
module CiScope {
  import opened Sets
  import opened Text

  /** Crate name -> the crates it depends on. */
  type Graph = map<string, seq<string>>

  // ------------------------------------------------- the dependents

  /** Whether the crate is a changed one, or reaches one in `n` dependencies. */
  ghost predicate Reaches(deps: Graph, changed: set<string>, name: string, n: nat)
    decreases n
  {
    name in deps
    && if n == 0 then name in changed
       else exists d :: d in deps[name] && Reaches(deps, changed, d, n - 1)
  }

  ghost predicate Affected(deps: Graph, changed: set<string>, name: string) {
    exists n: nat :: Reaches(deps, changed, name, n)
  }

  /** Holds the changed crates, and every crate that depends on one it holds. */
  ghost predicate Closed(deps: Graph, changed: set<string>, s: set<string>) {
    (forall c :: c in changed && c in deps ==> c in s)
    && forall name, d :: name in deps && d in deps && d in deps[name] && d in s ==> name in s
  }

  /** Exactly the known crates that reach a changed one. */
  ghost predicate IsAffected(deps: Graph, changed: set<string>, s: set<string>) {
    s <= deps.Keys && forall name :: name in s <==> Affected(deps, changed, name)
  }

  lemma AffectedStep(deps: Graph, changed: set<string>, name: string, d: string)
    requires name in deps && d in deps[name] && Affected(deps, changed, d)
    ensures Affected(deps, changed, name)
  {
    var n: nat :| Reaches(deps, changed, d, n);
    assert Reaches(deps, changed, name, n + 1);
  }

  lemma AffectedStart(deps: Graph, changed: set<string>, name: string)
    requires name in deps && name in changed
    ensures Affected(deps, changed, name)
  {
    assert Reaches(deps, changed, name, 0);
  }

  lemma {:induction false} ReachesIsInClosed(deps: Graph, changed: set<string>, s: set<string>, name: string, n: nat)
    requires Closed(deps, changed, s) && Reaches(deps, changed, name, n)
    ensures name in s
    decreases n
  {
    if n > 0 {
      var d :| d in deps[name] && Reaches(deps, changed, d, n - 1);
      ReachesIsInClosed(deps, changed, s, d, n - 1);
    }
  }

  /** A closed set of crates that all reach a changed one is all that do. */
  lemma ClosedIsAffected(deps: Graph, changed: set<string>, s: set<string>)
    requires s <= deps.Keys && Closed(deps, changed, s)
    requires forall name :: name in s ==> Affected(deps, changed, name)
    ensures IsAffected(deps, changed, s)
  {
    forall name | Affected(deps, changed, name) ensures name in s {
      var n: nat :| Reaches(deps, changed, name, n);
      ReachesIsInClosed(deps, changed, s, name, n);
    }
  }

  /** The affected crates are the least closed set: closed, and within every
      other one. */
  lemma AffectedIsLeastFixpoint(deps: Graph, changed: set<string>, s: set<string>, other: set<string>)
    requires IsAffected(deps, changed, s)
    ensures Closed(deps, changed, s)
    ensures Closed(deps, changed, other) ==> s <= other
  {
    forall c | c in changed && c in deps ensures c in s {
      AffectedStart(deps, changed, c);
    }
    forall name, d | name in deps && d in deps && d in deps[name] && d in s ensures name in s {
      AffectedStep(deps, changed, name, d);
    }
    if Closed(deps, changed, other) {
      forall name | name in s ensures name in other {
        var n: nat :| Reaches(deps, changed, name, n);
        ReachesIsInClosed(deps, changed, other, name, n);
      }
    }
  }

  /** More changed crates, no fewer affected ones. */
  lemma AffectedGrows(deps: Graph, less: set<string>, more: set<string>, s: set<string>, t: set<string>)
    requires less <= more && IsAffected(deps, less, s) && IsAffected(deps, more, t)
    ensures s <= t
  {
    AffectedIsLeastFixpoint(deps, more, t, t);
    assert Closed(deps, less, t);
    AffectedIsLeastFixpoint(deps, less, s, t);
  }

  function Users(deps: Graph, d: string): set<string> {
    set name | name in deps && d in deps[name] && d != name
  }

  /** `name` written down as a user of each of its dependencies. */
  method AddUser(reverse: map<string, set<string>>, name: string, uses: seq<string>)
    returns (r: map<string, set<string>>)
    ensures r.Keys == reverse.Keys
    ensures forall d :: d in reverse ==> r[d] == if d in uses && d != name then reverse[d] + {name} else reverse[d]
  {
    r := reverse;
    for i := 0 to |uses|
      invariant r.Keys == reverse.Keys
      invariant forall d :: d in reverse ==>
                  r[d] == if d in uses[..i] && d != name then reverse[d] + {name} else reverse[d]
    {
      var dep := uses[i];
      assert uses[..i + 1] == uses[..i] + [dep];
      if dep in r && dep != name {
        r := r[dep := r[dep] + {name}];
      }
    }
    assert uses[..|uses|] == uses;
  }

  /** The graph turned round, but for the crates still to be read. */
  ghost predicate Turned(deps: Graph, left: set<string>, reverse: map<string, set<string>>) {
    reverse.Keys == deps.Keys && forall d :: d in deps ==> reverse[d] == Users(deps, d) - left
  }

  lemma TurnedStart(deps: Graph)
    ensures Turned(deps, deps.Keys, map d | d in deps :: {})
  {
    forall d | d in deps ensures Users(deps, d) - deps.Keys == {} {
    }
  }

  lemma TurnedOneMore(deps: Graph, left: set<string>, reverse: map<string, set<string>>, name: string,
                      r: map<string, set<string>>)
    requires Turned(deps, left, reverse) && name in left && name in deps && r.Keys == reverse.Keys
    requires forall d :: d in reverse ==>
               r[d] == if d in deps[name] && d != name then reverse[d] + {name} else reverse[d]
    ensures Turned(deps, left - {name}, r)
  {
    forall d | d in deps ensures r[d] == Users(deps, d) - (left - {name}) {
      UsersLeft(deps, left, name, d);
    }
  }

  lemma UsersLeft(deps: Graph, left: set<string>, name: string, d: string)
    requires name in left && name in deps
    ensures Users(deps, d) - (left - {name})
         == if d in deps[name] && d != name then (Users(deps, d) - left) + {name} else Users(deps, d) - left
  {
  }

  ghost predicate TurnedRound(deps: Graph, reverse: map<string, set<string>>) {
    reverse.Keys == deps.Keys && forall d :: d in deps ==> reverse[d] == Users(deps, d)
  }

  /** The graph turned round: crate -> those that depend on it. */
  method Reverse(deps: Graph) returns (reverse: map<string, set<string>>)
    ensures TurnedRound(deps, reverse)
  {
    hide Users, Turned, TurnedRound;
    reverse := map d | d in deps :: {};
    TurnedStart(deps);
    var left := deps.Keys;
    while left != {}
      invariant left <= deps.Keys && Turned(deps, left, reverse)
      decreases |left|
    {
      var name :| name in left;
      var r := AddUser(reverse, name, deps[name]);
      TurnedOneMore(deps, left, reverse, name, r);
      reverse, left := r, left - {name};
    }
    TurnedDone(deps, reverse);
  }

  lemma TurnedDone(deps: Graph, reverse: map<string, set<string>>)
    requires Turned(deps, {}, reverse)
    ensures TurnedRound(deps, reverse)
  {
    hide Users;
    assert forall s: set<string> :: s - {} == s;
  }

  /** A set in some order. */
  method Listed(s: set<string>) returns (list: seq<string>)
    ensures forall x :: x in list <==> x in s
  {
    list := [];
    var left := s;
    while left != {}
      invariant left <= s && forall x :: x in list <==> x in s - left
      decreases |left|
    {
      var x :| x in left;
      list, left := list + [x], left - {x};
    }
  }

  /** Where the worklist stands: what it holds or has still to look at reaches a
      changed crate, and nothing it should look at is forgotten. */
  ghost predicate Working(deps: Graph, changed: set<string>, affected: set<string>, queue: seq<string>) {
    affected <= deps.Keys
    && (forall x :: x in queue ==> x in deps)
    && (forall x :: x in affected || x in queue ==> Affected(deps, changed, x))
    && (forall c :: c in changed && c in deps ==> c in affected || c in queue)
    && (forall d, u :: d in affected && u in Users(deps, d) ==> u in affected || u in queue)
  }

  lemma WorkingStart(deps: Graph, changed: set<string>, queue: seq<string>)
    requires forall x :: x in queue <==> x in changed * deps.Keys
    ensures Working(deps, changed, {}, queue)
  {
    forall x | x in queue ensures Affected(deps, changed, x) {
      AffectedStart(deps, changed, x);
    }
  }

  lemma WorkingAgain(deps: Graph, changed: set<string>, affected: set<string>, queue: seq<string>)
    requires Working(deps, changed, affected, queue) && queue != [] && queue[|queue| - 1] in affected
    ensures Working(deps, changed, affected, queue[..|queue| - 1])
  {
    hide Affected, Users;
    assert queue == queue[..|queue| - 1] + [queue[|queue| - 1]];
  }

  lemma WorkingOn(deps: Graph, changed: set<string>, affected: set<string>, queue: seq<string>, more: seq<string>)
    requires Working(deps, changed, affected, queue) && queue != []
    requires forall u :: u in more <==> u in Users(deps, queue[|queue| - 1])
    ensures Working(deps, changed, affected + {queue[|queue| - 1]}, queue[..|queue| - 1] + more)
  {
    var name := queue[|queue| - 1];
    forall u | u in more ensures Affected(deps, changed, u) && u in deps {
      UserIsAffected(deps, changed, u, name);
    }
    hide Affected, Users;
    assert queue == queue[..|queue| - 1] + [name];
  }

  lemma WorkingKnows(deps: Graph, changed: set<string>, affected: set<string>, queue: seq<string>)
    requires Working(deps, changed, affected, queue) && queue != []
    ensures affected <= deps.Keys && queue[|queue| - 1] in deps
  {
    hide Affected, Users;
    assert queue[|queue| - 1] in queue;
  }

  lemma WorkingDone(deps: Graph, changed: set<string>, affected: set<string>)
    requires Working(deps, changed, affected, [])
    ensures IsAffected(deps, changed, affected)
  {
    UsersAreClosed(deps, changed, affected);
    ClosedIsAffected(deps, changed, affected);
  }

  /** One look at the worklist: the last of it is dropped, or held and its users
      added. */
  method LookAtLast(deps: Graph, ghost changed: set<string>, reverse: map<string, set<string>>,
                    affected: set<string>, queue: seq<string>)
    returns (held: set<string>, left: seq<string>)
    requires queue != [] && Working(deps, changed, affected, queue)
    requires TurnedRound(deps, reverse)
    ensures Working(deps, changed, held, left)
    ensures |deps.Keys - held| < |deps.Keys - affected| || (held == affected && |left| < |queue|)
  {
    WorkingKnows(deps, changed, affected, queue);
    hide Users, Affected, Working;
    var name := queue[|queue| - 1];
    if name in affected {
      WorkingAgain(deps, changed, affected, queue);
      return affected, queue[..|queue| - 1];
    }
    var more := Listed(reverse[name]);
    WorkingOn(deps, changed, affected, queue, more);
    FewerLeft(deps.Keys, affected, affected + {name});
    return affected + {name}, queue[..|queue| - 1] + more;
  }

  /** `dependents`: a worklist over the graph turned round. It ends on every
      graph, cycles included. */
  method Dependents(deps: Graph, changed: set<string>) returns (affected: set<string>)
    ensures IsAffected(deps, changed, affected)
  {
    hide Working, TurnedRound, IsAffected, Users;
    var reverse := Reverse(deps);
    affected := {};
    var queue := Listed(changed * deps.Keys);
    WorkingStart(deps, changed, queue);
    while queue != []
      invariant Working(deps, changed, affected, queue)
      decreases |deps.Keys - affected|, |queue|
    {
      affected, queue := LookAtLast(deps, changed, reverse, affected, queue);
    }
    WorkingDone(deps, changed, affected);
  }

  lemma UserIsAffected(deps: Graph, changed: set<string>, u: string, name: string)
    requires u in Users(deps, name) && Affected(deps, changed, name)
    ensures u in deps && Affected(deps, changed, u)
  {
    AffectedStep(deps, changed, u, name);
  }

  lemma UsersAreClosed(deps: Graph, changed: set<string>, s: set<string>)
    requires forall c :: c in changed && c in deps ==> c in s
    requires forall d, u :: d in s && u in Users(deps, d) ==> u in s
    ensures Closed(deps, changed, s)
  {
    forall name, d | name in deps && d in deps && d in deps[name] && d in s ensures name in s {
      if name != d {
        assert name in Users(deps, d);
      }
    }
  }

  /** One growth: those that depend on something held join. */
  function Joined(deps: Graph, s: set<string>): set<string> {
    s + set name | name in deps && exists d :: d in deps[name] && d in s
  }

  /** The other way to compute it, which the scope's own check compares with: a
      set grown until nothing new joins. The two agree on every graph. */
  method GrownUntilNothingJoins(deps: Graph, changed: set<string>) returns (grown: set<string>)
    ensures IsAffected(deps, changed, grown)
  {
    grown := changed * deps.Keys;
    forall x | x in grown ensures Affected(deps, changed, x) {
      AffectedStart(deps, changed, x);
    }
    while true
      invariant changed * deps.Keys <= grown <= deps.Keys
      invariant forall x :: x in grown ==> Affected(deps, changed, x)
      decreases |deps.Keys - grown|
    {
      hide Affected;
      var next := Joined(deps, grown);
      if next == grown {
        break;
      }
      forall name | name in next ensures Affected(deps, changed, name) {
        if name !in grown {
          var d :| d in deps[name] && d in grown;
          AffectedStep(deps, changed, name, d);
        }
      }
      FewerLeft(deps.Keys, grown, next);
      grown := next;
    }
    ClosedIsAffected(deps, changed, grown);
  }

  // ---------------------------------------------------- classifying

  datatype Package = Package(name: string, dir: string, deps: seq<string>, lib: bool)

  datatype Kind = Crate(name: string) | Inert | Script | Install | Unknown

  const FULL_FILES: set<string> :=
    {"Cargo.toml", "Cargo.lock", "rust-toolchain", "rust-toolchain.toml", "scripts/ci_scope.py"}
  const FULL_PREFIXES: seq<string> := [".config/", ".cargo/", ".github/workflows/"]
  const INERT_FILES: set<string> :=
    {"LICENSE", ".gitignore", ".gitattributes", "clippy.toml", "rustfmt.toml", "deny.toml",
     ".github/dependabot.yml", ".github/CODEOWNERS"}
  const INERT_PREFIXES: seq<string> := ["docs/", ".claude/", ".github/ISSUE_TEMPLATE/"]
  const ANDROID_CORE: set<string> :=
    {"itsanas-crypto", "itsanas-store", "itsanas-sync", "itsanas-policy", "itsanas-discover",
     "itsanas-placement", "itsanas-wire", "itsanas-cli"}
  const MAC_PATHS: seq<string> := ["crates/itsanas-touchid/", "install/macos", "scripts/itsanas-menubar"]

  predicate StartsWithAny(path: string, prefixes: seq<string>) {
    exists i :: 0 <= i < |prefixes| && prefixes[i] <= path
  }

  predicate EndsWith(path: string, suffix: string) {
    |suffix| <= |path| && path[|path| - |suffix|..] == suffix
  }

  /** Directory -> crate, a later package winning. */
  function CrateDirs(packages: seq<Package>): map<string, string> {
    if packages == [] then map[]
    else
      var last := packages[|packages| - 1];
      CrateDirs(packages[..|packages| - 1])[last.dir := last.name]
  }

  predicate InDir(path: string, dir: string) {
    dir + "/" <= path
  }

  /** The innermost crate directory the path is in, looking from the longest
      down, so that a crate nested in another is not swallowed. */
  function InnermostDir(dirs: set<string>, path: string, k: nat): (r: Option<string>)
    requires k <= |path|
    ensures r.Some? ==> r.value in dirs && InDir(path, r.value) && |r.value| < k
    ensures forall d :: d in dirs && InDir(path, d) && |d| < k ==> r.Some? && |d| <= |r.value|
  {
    if k == 0 then None
    else if path[k - 1] == '/' && path[..k - 1] in dirs then
      assert path[..k - 1] + "/" == path[..k];
      Some(path[..k - 1])
    else
      assert forall d :: d in dirs && InDir(path, d) && |d| == k - 1 ==> d == path[..k - 1] && path[k - 1] == '/';
      InnermostDir(dirs, path, k - 1)
  }

  function Classify(path: string, dirs: map<string, string>): Kind {
    if "android/" <= path then Crate("itsanas-android")
    else if "ios/" <= path then Crate("itsanas-ios")
    else
      var dir := InnermostDir(dirs.Keys, path, |path|);
      if dir.Some? then Crate(dirs[dir.value])
      else if path in INERT_FILES || StartsWithAny(path, INERT_PREFIXES) then Inert
      else if '/' !in path && EndsWith(path, ".md") then Inert
      else if "scripts/" <= path then Script
      else if "install/" <= path then Install
      else Unknown
  }

  // ---------------------------------------------------- the decision

  /** A path every test depends on. */
  predicate ForcesFull(path: string) {
    path in FULL_FILES || StartsWithAny(path, FULL_PREFIXES)
  }

  /** What a run is about: the event, whether it carries the milestone label, the
      changed paths, and those that mention a Mac. */
  datatype Change = Change(pullRequest: bool, milestone: bool, files: seq<string>, mentionsMac: set<string>)

  datatype FullReason = NotAPullRequest | Milestone | Changed(path: string) | Unclassified(path: string)

  /** Why a job runs, or does not. `NoReason` is the empty string. */
  datatype Why = FullRun | Wanted | NotWanted | NoCrateAffected | CoverageOnFullRunsOnly | NoReason

  datatype Job = Job(run: bool, why: Why)

  /** The crates a command is given: all of them, or these. */
  datatype Args = Workspace | Crates(names: set<string>)

  predicate Names(args: Args, name: string) {
    args.Workspace? || name in args.names
  }

  datatype Plan = Plan(
    reason: Option<FullReason>,
    changed: set<string>,
    affected: set<string>,
    jobs: map<string, Job>,
    mac: bool,
    tested: Args,
    documented: Args,
    built: Args,
    smoke: bool)

  const JOBS: set<string> := {"test", "slow-tests", "installers-run", "acceptance-local", "cross-build", "android-core",
                              "android-app", "ios-app", "minimum-rust-version", "coverage"}

  function FirstForcing(files: seq<string>): (r: Option<string>)
    ensures r.Some? ==> r.value in files && ForcesFull(r.value)
    ensures r.None? ==> forall p :: p in files ==> !ForcesFull(p)
  {
    if files == [] then None
    else if ForcesFull(files[0]) then Some(files[0])
    else FirstForcing(files[1..])
  }

  function WhyFull(c: Change): Option<FullReason> {
    if !c.pullRequest then Some(NotAPullRequest)
    else if c.milestone then Some(Milestone)
    else
      match FirstForcing(c.files)
      case Some(path) => Some(Changed(path))
      case None => None
  }

  /** What the changed paths amount to. */
  datatype Sorted = Sorted(crates: set<string>, scripts: seq<string>, install: bool, unknown: seq<string>)

  function SortPaths(files: seq<string>, dirs: map<string, string>): Sorted {
    if files == [] then Sorted({}, [], false, [])
    else
      var before, path := SortPaths(files[..|files| - 1], dirs), files[|files| - 1];
      match Classify(path, dirs)
      case Crate(name) => before.(crates := before.crates + {name})
      case Inert => before
      case Script => before.(scripts := before.scripts + [path])
      case Install => before.(install := true)
      case Unknown => before.(unknown := before.unknown + [path])
  }

  function GraphOf(packages: seq<Package>): Graph {
    if packages == [] then map[]
    else
      var last := packages[|packages| - 1];
      GraphOf(packages[..|packages| - 1])[last.name := last.deps]
  }

  /** The crates with a library, a later package winning. */
  function LibsOf(packages: seq<Package>): set<string> {
    if packages == [] then {}
    else
      var last := packages[|packages| - 1];
      LibsOf(packages[..|packages| - 1]) - {last.name} + if last.lib then {last.name} else {}
  }

  function ArgsFor(full: bool, names: set<string>): Args {
    if full then Workspace else Crates(names)
  }

  /** Whether the run is full, and why. */
  function Reason(c: Change, s: Sorted): Option<FullReason> {
    var why := WhyFull(c);
    if why.Some? then why else if s.unknown != [] then Some(Unclassified(s.unknown[0])) else None
  }

  predicate Touched(scripts: seq<string>, prefix: string) {
    exists i :: 0 <= i < |scripts| && prefix <= scripts[i]
  }

  /** Whether the job is wanted, on a run that is not full. */
  predicate Wants(job: string, s: Sorted, affected: set<string>) {
    if job == "installers-run" then s.install || Touched(s.scripts, "scripts/smoke.sh") || "itsanas-cli" in affected
    else if job == "acceptance-local" then
      Touched(s.scripts, "scripts/acceptance") || "itsanas-cli" in affected || "itsanas-coordinator" in affected
    else if job == "android-core" then ANDROID_CORE * affected != {}
    else if job == "android-app" then
      "itsanas-android" in affected || Touched(s.scripts, "scripts/build-apk")
        || Touched(s.scripts, "scripts/android-e2e")
    else if job == "ios-app" then "itsanas-ios" in affected || Touched(s.scripts, "scripts/build-ios")
    else if job == "coverage" then false
    else affected != {}
  }

  /** The reason written for a job a partial run does not want. */
  function WhySkip(job: string, s: Sorted): Why {
    if job in {"test", "slow-tests", "cross-build", "minimum-rust-version"} then
      (if s.crates == {} then NoCrateAffected else NoReason)
    else if job == "coverage" then CoverageOnFullRunsOnly
    else NotWanted
  }

  function JobFor(job: string, full: bool, s: Sorted, affected: set<string>): Job {
    var wanted := Wants(job, s, affected);
    Job(full || wanted, if full then FullRun else if wanted then Wanted else WhySkip(job, s))
  }

  predicate NeedsMac(c: Change) {
    !c.pullRequest || c.milestone || c.mentionsMac != {}
    || exists i :: 0 <= i < |c.files| && StartsWithAny(c.files[i], MAC_PATHS)
  }

  /** What the classified paths are, when they are looked at: not on a run already
      full for another reason. */
  function Looked(c: Change, packages: seq<Package>): Sorted {
    if WhyFull(c).Some? then Sorted({}, [], false, []) else SortPaths(c.files, CrateDirs(packages))
  }

  /** What the plan for a change must be. */
  ghost predicate IsPlan(c: Change, packages: seq<Package>, plan: Plan) {
    var s := Looked(c, packages);
    var deps := GraphOf(packages);
    plan.reason == Reason(c, s) && plan.changed == s.crates && plan.mac == NeedsMac(c)
    && (if plan.reason.Some? then plan.affected == deps.Keys else IsAffected(deps, s.crates, plan.affected))
    && plan.jobs == (map job | job in JOBS :: JobFor(job, plan.reason.Some?, s, plan.affected))
    && plan.tested == plan.built == ArgsFor(plan.reason.Some?, plan.affected)
    && plan.documented == ArgsFor(plan.reason.Some?, plan.affected * LibsOf(packages))
    && plan.smoke == (plan.reason.Some? || "itsanas-cli" in plan.affected)
  }

  /** `decide`. */
  method Decide(c: Change, packages: seq<Package>) returns (plan: Plan)
    ensures IsPlan(c, packages, plan)
  {
    hide Classify, ForcesFull;
    var reason := WhyFull(c);
    var crates: set<string>, scripts: seq<string>, install, unknown: seq<string> := {}, [], false, [];
    if reason.None? {
      var dirs := CrateDirs(packages);
      for i := 0 to |c.files|
        invariant SortPaths(c.files[..i], dirs) == Sorted(crates, scripts, install, unknown)
      {
        assert c.files[..i + 1][..|c.files[..i + 1]| - 1] == c.files[..i];
        match Classify(c.files[i], dirs) {
          case Crate(name) => crates := crates + {name};
          case Script => scripts := scripts + [c.files[i]];
          case Install => install := true;
          case Unknown => unknown := unknown + [c.files[i]];
          case Inert =>
        }
      }
      assert c.files[..|c.files|] == c.files;
      if unknown != [] {
        reason := Some(Unclassified(unknown[0]));
      }
    }
    var deps := GraphOf(packages);
    var affected := deps.Keys;
    if reason.None? {
      affected := Dependents(deps, crates);
    }
    var s := Sorted(crates, scripts, install, unknown);
    var full := reason.Some?;
    plan := Plan(reason, crates, affected, map job | job in JOBS :: JobFor(job, full, s, affected), NeedsMac(c),
                 ArgsFor(full, affected), ArgsFor(full, affected * LibsOf(packages)), ArgsFor(full, affected),
                 full || "itsanas-cli" in affected);
  }

  // --------------------------------------------- the decision is monotone

  /** The same run with more changed paths, or more of them naming a Mac. */
  predicate Extends(c: Change, more: Change) {
    c.pullRequest == more.pullRequest && c.milestone == more.milestone && c.mentionsMac <= more.mentionsMac
    && forall p :: p in c.files ==> p in more.files
  }

  /** What `SortPaths` finds, path by path. */
  lemma {:induction false} SortedFinds(files: seq<string>, dirs: map<string, string>)
    ensures var s := SortPaths(files, dirs);
            (forall n :: n in s.crates <==> exists p :: p in files && Classify(p, dirs) == Crate(n))
            && (forall p :: p in s.scripts <==> p in files && Classify(p, dirs) == Script)
            && (s.install <==> exists p :: p in files && Classify(p, dirs) == Install)
            && (forall p :: p in s.unknown <==> p in files && Classify(p, dirs) == Unknown)
  {
    hide Classify;
    if files != [] {
      var before, path := files[..|files| - 1], files[|files| - 1];
      SortedFinds(before, dirs);
      assert files == before + [path];
    }
  }

  predicate Covers(s: Sorted, t: Sorted) {
    s.crates <= t.crates && (s.install ==> t.install)
    && (forall p :: p in s.scripts ==> p in t.scripts) && (forall p :: p in s.unknown ==> p in t.unknown)
  }

  lemma SortedGrows(files: seq<string>, more: seq<string>, dirs: map<string, string>)
    requires forall p :: p in files ==> p in more
    ensures Covers(SortPaths(files, dirs), SortPaths(more, dirs))
  {
    hide Classify;
    SortedFinds(files, dirs);
    SortedFinds(more, dirs);
  }

  lemma WhyFullGrows(c: Change, more: Change)
    requires Extends(c, more) && WhyFull(c).Some?
    ensures WhyFull(more).Some?
  {
    hide ForcesFull;
  }

  lemma TouchedGrows(s: seq<string>, t: seq<string>, prefix: string)
    requires (forall p :: p in s ==> p in t) && Touched(s, prefix)
    ensures Touched(t, prefix)
  {
    var i :| 0 <= i < |s| && prefix <= s[i];
    assert s[i] in t;
    var j :| 0 <= j < |t| && t[j] == s[i];
  }

  lemma WantsGrows(job: string, s: Sorted, t: Sorted, affected: set<string>, more: set<string>)
    requires Covers(s, t) && affected <= more && Wants(job, s, affected)
    ensures Wants(job, t, more)
  {
    hide Touched;
    if Touched(s.scripts, "scripts/smoke.sh") { TouchedGrows(s.scripts, t.scripts, "scripts/smoke.sh"); }
    if Touched(s.scripts, "scripts/acceptance") { TouchedGrows(s.scripts, t.scripts, "scripts/acceptance"); }
    if Touched(s.scripts, "scripts/build-apk") { TouchedGrows(s.scripts, t.scripts, "scripts/build-apk"); }
    if Touched(s.scripts, "scripts/android-e2e") { TouchedGrows(s.scripts, t.scripts, "scripts/android-e2e"); }
    if Touched(s.scripts, "scripts/build-ios") { TouchedGrows(s.scripts, t.scripts, "scripts/build-ios"); }
    if ANDROID_CORE * affected != {} {
      var x :| x in ANDROID_CORE * affected;
      assert x in ANDROID_CORE * more;
    }
  }

  lemma MacGrows(c: Change, more: Change)
    requires Extends(c, more) && NeedsMac(c)
    ensures NeedsMac(more)
  {
    hide StartsWithAny;
    if exists i :: 0 <= i < |c.files| && StartsWithAny(c.files[i], MAC_PATHS) {
      var i :| 0 <= i < |c.files| && StartsWithAny(c.files[i], MAC_PATHS);
      assert c.files[i] in more.files;
      var j :| 0 <= j < |more.files| && more.files[j] == c.files[i];
    }
  }

  /** Whether a run is full only grows, and so does what it looks at. */
  lemma ReasonGrows(c: Change, more: Change, packages: seq<Package>)
    requires Extends(c, more)
    ensures Reason(c, Looked(c, packages)).Some? ==> Reason(more, Looked(more, packages)).Some?
    ensures Reason(more, Looked(more, packages)).None? ==> Covers(Looked(c, packages), Looked(more, packages))
  {
    hide SortPaths, CrateDirs;
    if WhyFull(c).Some? {
      WhyFullGrows(c, more);
    } else {
      SortedGrows(c.files, more.files, CrateDirs(packages));
      var s, t := SortPaths(c.files, CrateDirs(packages)), SortPaths(more.files, CrateDirs(packages));
      assert s.unknown != [] ==> s.unknown[0] in t.unknown;
    }
  }

  /** Adding changed paths never turns a job, the Mac or the smoke test off, and
      never leaves out a crate that was tested, built or documented. */
  lemma DecisionIsMonotone(c: Change, more: Change, packages: seq<Package>, plan: Plan, after: Plan)
    requires Extends(c, more) && IsPlan(c, packages, plan) && IsPlan(more, packages, after)
    ensures forall job :: job in JOBS && plan.jobs[job].run ==> after.jobs[job].run
    ensures plan.mac ==> after.mac
    ensures plan.affected <= after.affected && (plan.smoke ==> after.smoke)
    ensures forall name :: Names(plan.tested, name) ==> Names(after.tested, name) && Names(after.built, name)
    ensures forall name :: Names(plan.documented, name) ==> Names(after.documented, name)
  {
    hide LibsOf, Reason, Looked, GraphOf, NeedsMac, Wants, WhySkip;
    var s, t, deps := Looked(c, packages), Looked(more, packages), GraphOf(packages);
    ReasonGrows(c, more, packages);
    if plan.mac {
      MacGrows(c, more);
    }
    if after.reason.None? {
      AffectedGrows(deps, s.crates, t.crates, plan.affected, after.affected);
      forall job | job in JOBS && plan.jobs[job].run ensures after.jobs[job].run {
        WantsGrows(job, s, t, plan.affected, after.affected);
      }
    }
  }

  // -------------------------------------------- when a run tests everything

  /** A run is full exactly when it is no pull request, carries the milestone
      label, or changes a path that every test depends on or that nobody
      classified; and a full run runs every job and tests every crate. */
  lemma FullRuns(c: Change, packages: seq<Package>, plan: Plan)
    requires IsPlan(c, packages, plan)
    ensures plan.reason.Some? <==> FullCause(c, packages)
    ensures plan.reason.Some? ==> plan.affected == GraphOf(packages).Keys && plan.smoke
    ensures plan.reason.Some? ==> plan.tested == plan.built == plan.documented == Workspace
    ensures plan.reason.Some? ==> forall job :: job in JOBS ==> plan.jobs[job].run
  {
    hide GraphOf, NeedsMac, Wants, ForcesFull, Classify, SortPaths;
    var dirs := CrateDirs(packages);
    SortedFinds(c.files, dirs);
    var unknown := SortPaths(c.files, dirs).unknown;
    assert unknown != [] ==> unknown[0] in unknown;
  }

  /** A change of documents alone runs no job at all. */
  lemma InertRunsNothing(c: Change, packages: seq<Package>, plan: Plan)
    requires IsPlan(c, packages, plan) && !FullCause(c, packages)
    requires forall p :: p in c.files ==> Classify(p, CrateDirs(packages)) == Inert
    ensures plan.affected == {} && forall job :: job in JOBS ==> !plan.jobs[job].run && plan.jobs[job].why != NoReason
  {
    FullRuns(c, packages, plan);
    SortedFinds(c.files, CrateDirs(packages));
    hide GraphOf, Classify, SortPaths, IsAffected, JobFor;
    var s := Looked(c, packages);
    HasAnItem(s.scripts);
    assert s.crates == {} && s.scripts == [] && !s.install;
    PartialPlan(c, packages, plan);
    AffectedIffKnown(GraphOf(packages), s.crates, plan.affected);
    hide IsPlan, Looked;
    forall job | job in JOBS ensures !plan.jobs[job].run && plan.jobs[job].why != NoReason {
      JobPlanned(c, packages, plan, job);
      NothingWanted(job, s);
    }
  }

  lemma NothingWanted(job: string, s: Sorted)
    requires job in JOBS && s.crates == {} && s.scripts == [] && !s.install
    ensures !JobFor(job, false, s, {}).run && JobFor(job, false, s, {}).why != NoReason
  {
  }

  lemma HasAnItem(s: seq<string>)
    ensures s != [] ==> exists p :: p in s
  {
    if s != [] {
      assert s[0] in s;
    }
  }

  lemma RustJobWants(job: string, s: Sorted, affected: set<string>)
    requires job == "test" || job == "slow-tests" || job == "cross-build" || job == "minimum-rust-version"
    ensures job in JOBS && (Wants(job, s, affected) <==> affected != {})
  {
    if job == "test" {
      assert "test" in JOBS && (Wants("test", s, affected) <==> affected != {});
    } else if job == "slow-tests" {
      assert "slow-tests" in JOBS && (Wants("slow-tests", s, affected) <==> affected != {});
    } else if job == "cross-build" {
      assert "cross-build" in JOBS && (Wants("cross-build", s, affected) <==> affected != {});
    } else {
      assert "minimum-rust-version" in JOBS && (Wants("minimum-rust-version", s, affected) <==> affected != {});
    }
  }

  /** Every crate a partial run tests is a changed one or depends on one, and each
      Rust job runs exactly when there is such a crate. */
  lemma RustJobsFollowTheCrates(c: Change, packages: seq<Package>, plan: Plan, job: string)
    requires IsPlan(c, packages, plan) && !FullCause(c, packages)
    requires job == "test" || job == "slow-tests" || job == "cross-build" || job == "minimum-rust-version"
    ensures job in JOBS && (plan.jobs[job].run <==> exists name :: Affected(GraphOf(packages), plan.changed, name))
  {
    FullRuns(c, packages, plan);
    hide GraphOf, NeedsMac, Looked, Reason, Affected, Wants;
    var s := Looked(c, packages);
    RustJobWants(job, s, plan.affected);
    assert plan.jobs[job] == JobFor(job, false, s, plan.affected);
    if plan.affected != {} {
      var name :| name in plan.affected;
      assert Affected(GraphOf(packages), plan.changed, name);
    }
  }

  // ------------------------------------------------ the reasons written

  /** What makes a run full: no pull request, the milestone label, a changed path
      every test depends on, or one nobody classified. */
  predicate FullCause(c: Change, packages: seq<Package>) {
    !c.pullRequest || c.milestone
    || exists p :: p in c.files && (ForcesFull(p) || Classify(p, CrateDirs(packages)) == Unknown)
  }

  /** Whether the path is a crate's, and that crate is in the workspace. */
  predicate OfAPackage(path: string, packages: seq<Package>) {
    var kind := Classify(path, CrateDirs(packages));
    kind.Crate? && kind.name in GraphOf(packages)
  }

  /** The run is full, or no changed path is a crate's, or one is a package's. */
  predicate Explained(c: Change, packages: seq<Package>) {
    FullCause(c, packages)
    || (forall p :: p in c.files ==> !Classify(p, CrateDirs(packages)).Crate?)
    || exists p :: p in c.files && OfAPackage(p, packages)
  }

  /** The same in the plan's own terms. */
  lemma ExplainedInThePlan(c: Change, packages: seq<Package>, plan: Plan)
    requires IsPlan(c, packages, plan)
    ensures Explained(c, packages)
            <==> plan.reason.Some? || plan.changed == {} || plan.changed * GraphOf(packages).Keys != {}
  {
    FullRuns(c, packages, plan);
    hide IsPlan, FullCause, GraphOf;
    if plan.reason.None? {
      NoneChanged(c, packages, plan);
      SomeKnown(c, packages, plan);
    }
  }

  lemma NoneChanged(c: Change, packages: seq<Package>, plan: Plan)
    requires IsPlan(c, packages, plan) && plan.reason.None?
    ensures plan.changed == {} <==> forall p :: p in c.files ==> !Classify(p, CrateDirs(packages)).Crate?
  {
    hide IsPlan, Classify, CrateDirs;
    ChangedAreTheCrates(c, packages, plan);
    if n :| n in plan.changed {
      var p :| p in c.files && Classify(p, CrateDirs(packages)) == Crate(n);
    }
    forall p | p in c.files && Classify(p, CrateDirs(packages)).Crate? ensures plan.changed != {} {
      assert Classify(p, CrateDirs(packages)) == Crate(Classify(p, CrateDirs(packages)).name);
      assert Classify(p, CrateDirs(packages)).name in plan.changed;
    }
  }

  lemma SomeKnown(c: Change, packages: seq<Package>, plan: Plan)
    requires IsPlan(c, packages, plan) && plan.reason.None?
    ensures plan.changed * GraphOf(packages).Keys != {} <==> exists p :: p in c.files && OfAPackage(p, packages)
  {
    hide IsPlan, Classify, CrateDirs, GraphOf;
    ChangedAreTheCrates(c, packages, plan);
    var known := GraphOf(packages).Keys;
    if n :| n in plan.changed * known {
      var p :| p in c.files && Classify(p, CrateDirs(packages)) == Crate(n);
      assert OfAPackage(p, packages);
    }
    if p :| p in c.files && OfAPackage(p, packages) {
      assert Classify(p, CrateDirs(packages)) == Crate(Classify(p, CrateDirs(packages)).name);
      assert Classify(p, CrateDirs(packages)).name in plan.changed * known;
    }
  }

  lemma ChangedAreTheCrates(c: Change, packages: seq<Package>, plan: Plan)
    requires IsPlan(c, packages, plan) && plan.reason.None?
    ensures forall n :: n in plan.changed <==> exists p :: p in c.files && Classify(p, CrateDirs(packages)) == Crate(n)
  {
    hide GraphOf, Classify, ForcesFull, CrateDirs, SortPaths;
    SortedFinds(c.files, CrateDirs(packages));
  }

  /** Every skipped job has its reason exactly when the run is full, or no changed
      path is a crate's, or some changed path is a package's. Otherwise the four
      Rust jobs are skipped with an empty one. */
  lemma SkipsHaveReasons(c: Change, packages: seq<Package>, plan: Plan)
    requires IsPlan(c, packages, plan)
    ensures (forall job :: job in JOBS && !plan.jobs[job].run ==> plan.jobs[job].why != NoReason)
            <==> Explained(c, packages)
  {
    ExplainedInThePlan(c, packages, plan);
    var s, full := Looked(c, packages), plan.reason.Some?;
    forall job | job in JOBS ensures plan.jobs[job] == JobFor(job, full, s, plan.affected) {
      JobPlanned(c, packages, plan, job);
    }
    if !full {
      PartialPlan(c, packages, plan);
      AffectedIffKnown(GraphOf(packages), s.crates, plan.affected);
    }
    JobReasons(full, s, plan.affected);
    hide IsPlan, Looked, GraphOf, Explained, JobFor, IsAffected;
  }

  /** The reasons of the jobs, from what the paths amount to. */
  lemma JobReasons(full: bool, s: Sorted, affected: set<string>)
    ensures (forall job :: job in JOBS && !JobFor(job, full, s, affected).run ==>
               JobFor(job, full, s, affected).why != NoReason)
            <==> full || s.crates == {} || affected != {}
  {
    if !full && s.crates != {} && affected == {} {
      assert "test" in JOBS && JobFor("test", full, s, affected) == Job(false, NoReason);
    }
  }

  lemma PartialPlan(c: Change, packages: seq<Package>, plan: Plan)
    requires IsPlan(c, packages, plan) && plan.reason.None?
    ensures plan.changed == Looked(c, packages).crates && IsAffected(GraphOf(packages), plan.changed, plan.affected)
  {
  }

  lemma JobPlanned(c: Change, packages: seq<Package>, plan: Plan, job: string)
    requires IsPlan(c, packages, plan) && job in JOBS
    ensures job in plan.jobs
    ensures plan.jobs[job] == JobFor(job, plan.reason.Some?, Looked(c, packages), plan.affected)
  {
    hide JobFor, Looked, GraphOf, LibsOf, Reason, NeedsMac;
  }

  /** Such changes: the iPhone app's folder, in any workspace without its crate. The
      tests are skipped and the plan does not say why. */
  lemma UnexplainedSkip(packages: seq<Package>, plan: Plan)
    requires "itsanas-ios" !in GraphOf(packages)
    requires IsPlan(Change(true, false, ["ios/App.swift"], {}), packages, plan)
    ensures plan.jobs["test"] == Job(false, NoReason)
  {
    var c := Change(true, false, ["ios/App.swift"], {});
    IosPathOnly(c, packages);
    hide Classify, ForcesFull, SortPaths, Looked, GraphOf;
    assert plan.changed == {"itsanas-ios"} && plan.reason.None?;
    PartialPlan(c, packages, plan);
    AffectedIffKnown(GraphOf(packages), plan.changed, plan.affected);
    assert "test" in JOBS;
    JobPlanned(c, packages, plan, "test");
  }

  lemma IosPathOnly(c: Change, packages: seq<Package>)
    requires c == Change(true, false, ["ios/App.swift"], {})
    ensures WhyFull(c).None? && Looked(c, packages) == Sorted({"itsanas-ios"}, [], false, [])
  {
    var path, dirs := "ios/App.swift", CrateDirs(packages);
    assert path[0] == 'i' && path[..4] == "ios/";
    assert !ForcesFull(path);
    assert Classify(path, dirs) == Crate("itsanas-ios");
    hide Classify, ForcesFull;
    assert c.files[..0] == [] && c.files[1..] == [];
    assert SortPaths(c.files[..0], dirs) == Sorted({}, [], false, []);
  }

  /** One such workspace. */
  lemma UnexplainedWorkspace() returns (packages: seq<Package>)
    ensures GraphOf(packages).Keys == {"itsanas-store", "itsanas-cli"}
    ensures !Explained(Change(true, false, ["ios/App.swift"], {}), packages)
  {
    var store := Package("itsanas-store", "crates/itsanas-store", [], true);
    var cli := Package("itsanas-cli", "crates/itsanas-cli", ["itsanas-store"], true);
    packages := [store, cli];
    assert packages[..1] == [store] && [store][..0] == [];
    assert GraphOf([store]) == map["itsanas-store" := []];
    IosUnexplained(packages);
  }

  lemma IosUnexplained(packages: seq<Package>)
    requires "itsanas-ios" !in GraphOf(packages)
    ensures !Explained(Change(true, false, ["ios/App.swift"], {}), packages)
  {
    var path := "ios/App.swift";
    assert path[0] == 'i' && path[..4] == "ios/" && !ForcesFull(path);
    assert Classify(path, CrateDirs(packages)) == Crate("itsanas-ios");
    hide Classify, ForcesFull, GraphOf, CrateDirs;
    assert path in [path] && !OfAPackage(path, packages);
  }

  /** Nothing is affected exactly when no changed crate is known. */
  lemma AffectedIffKnown(deps: Graph, changed: set<string>, affected: set<string>)
    requires IsAffected(deps, changed, affected)
    ensures affected != {} <==> changed * deps.Keys != {}
  {
    AffectedIsLeastFixpoint(deps, changed, affected, {});
    if changed * deps.Keys != {} {
      var c :| c in changed * deps.Keys;
      assert c in affected;
    }
  }

  // ------------------------------------------------------- the verdict

  /** GitHub's word on a job: what it ended as, if it said, and, for the job that
      wrote it, the plan, if one can be read. */
  datatype Need = Need(result: Option<string>, plan: Option<map<string, Job>>)

  datatype Problem =
    | NoChangesJob
    | NoPlan
    | NeverMentioned(job: string)
    | SaidItRuns(job: string)
    | NoReasonGiven(job: string)
    | Ended(job: string, result: Option<string>)

  /** What is wrong with one job, given the plan. */
  function ProblemOf(job: string, need: Need, decided: map<string, Job>): Option<Problem> {
    if need.result == Some("skipped") then
      if job !in decided then Some(NeverMentioned(job))
      else if decided[job].run then Some(SaidItRuns(job))
      else if decided[job].why == NoReason then Some(NoReasonGiven(job))
      else None
    else if need.result != Some("success") then Some(Ended(job, need.result))
    else None
  }

  /** The problems told of one job: skipped and never mentioned, skipped though it
      runs, skipped with no reason, or ended otherwise. */
  predicate ProblemsOf(job: string, need: Need, decided: map<string, Job>, problems: seq<Problem>) {
    var skipped := need.result == Some("skipped");
    (NeverMentioned(job) in problems <==> skipped && job !in decided)
    && (SaidItRuns(job) in problems <==> skipped && job in decided && decided[job].run)
    && (NoReasonGiven(job) in problems
        <==> skipped && job in decided && !decided[job].run && decided[job].why == NoReason)
    && (Ended(job, need.result) in problems <==> need.result != Some("skipped") && need.result != Some("success"))
  }

  lemma TheProblems(needs: map<string, Need>, decided: map<string, Job>, problems: seq<Problem>, job: string)
    requires job in needs
    requires forall p :: p in problems <==> exists j :: j in needs && ProblemOf(j, needs[j], decided) == Some(p)
    ensures ProblemsOf(job, needs[job], decided, problems)
  {
    var problem := ProblemOf(job, needs[job], decided);
    assert problem.Some? ==> problem.value in problems;
  }

  /** `check_needs`: every problem with a finished run's jobs. */
  method CheckNeeds(needs: map<string, Need>) returns (problems: seq<Problem>)
    ensures "changes" !in needs || needs["changes"].result != Some("success") ==> problems == [NoChangesJob]
    ensures "changes" in needs && needs["changes"].result == Some("success") && needs["changes"].plan.None?
            ==> problems == [NoPlan]
    ensures "changes" in needs && needs["changes"].result == Some("success") && needs["changes"].plan.Some? ==>
              forall p :: p in problems <==>
                exists job :: job in needs && ProblemOf(job, needs[job], needs["changes"].plan.value) == Some(p)
    ensures "changes" in needs && needs["changes"].result == Some("success") && needs["changes"].plan.Some? ==>
              forall job :: job in needs ==> ProblemsOf(job, needs[job], needs["changes"].plan.value, problems)
  {
    if "changes" !in needs || needs["changes"].result != Some("success") {
      return [NoChangesJob];
    }
    if needs["changes"].plan.None? {
      return [NoPlan];
    }
    var decided := needs["changes"].plan.value;
    problems := [];
    var left := needs.Keys;
    while left != {}
      invariant left <= needs.Keys
      invariant forall p :: p in problems <==>
                  exists job :: job in needs && job !in left && ProblemOf(job, needs[job], decided) == Some(p)
      decreases |left|
    {
      hide ProblemOf;
      var job :| job in left;
      var problem := ProblemOf(job, needs[job], decided);
      ghost var was := problems;
      if problem.Some? {
        problems := problems + [problem.value];
      }
      left := left - {job};
      assert forall p :: p in problems <==> p in was || problem == Some(p);
    }
    forall job | job in needs ensures ProblemsOf(job, needs[job], decided, problems) {
      TheProblems(needs, decided, problems, job);
    }
  }

  /** What makes a run green: the plan was written, and each job succeeded or was
      skipped by the plan, with a reason. */
  predicate Green(needs: map<string, Need>) {
    "changes" in needs && needs["changes"].result == Some("success") && needs["changes"].plan.Some?
    && var decided := needs["changes"].plan.value;
       forall job :: job in needs ==>
         needs[job].result == Some("success")
         || (needs[job].result == Some("skipped") && job in decided && !decided[job].run
             && decided[job].why != NoReason)
  }

  /** The verdict is empty exactly for a green run; so with the plan `decide`
      made, every needed job it said to run did run and succeed. */
  method Verdict(needs: map<string, Need>, ghost c: Change, ghost packages: seq<Package>, ghost plan: Plan)
    returns (green: bool)
    ensures green <==> Green(needs)
    ensures green && IsPlan(c, packages, plan) && needs["changes"].plan == Some(plan.jobs)
            ==> forall job :: job in needs && job in JOBS && plan.jobs[job].run ==> needs[job].result == Some("success")
  {
    var problems := CheckNeeds(needs);
    green := problems == [];
    if "changes" in needs && needs["changes"].result == Some("success") && needs["changes"].plan.Some? {
      var decided := needs["changes"].plan.value;
      if problems != [] {
        assert problems[0] in problems;
      }
      forall job | job in needs
        ensures var problem := ProblemOf(job, needs[job], decided); problem.None? || problem.value in problems
      {
      }
    }
  }

  /** A run that did what the plan said: those it runs succeeded, those it skips
      were skipped, and everything it does not decide succeeded. */
  predicate Obeyed(needs: map<string, Need>, jobs: map<string, Job>) {
    jobs.Keys <= needs.Keys && "changes" in needs && "changes" !in jobs && needs["changes"].plan == Some(jobs)
    && forall job :: job in needs ==>
         needs[job].result == Some(if job in jobs && !jobs[job].run then "skipped" else "success")
  }

  /** Obeying the plan is green exactly when the plan wrote every reason: the
      change is refused, with nothing failing, when it touches crates of which
      none is a package. */
  lemma ObeyedIsGreen(c: Change, packages: seq<Package>, plan: Plan, needs: map<string, Need>)
    requires IsPlan(c, packages, plan) && Obeyed(needs, plan.jobs)
    ensures Green(needs) <==> Explained(c, packages)
  {
    SkipsHaveReasons(c, packages, plan);
    hide Looked, Reason, GraphOf, NeedsMac, JobFor, IsPlan, Explained;
    PlanDecidesTheJobs(c, packages, plan);
  }

  lemma PlanDecidesTheJobs(c: Change, packages: seq<Package>, plan: Plan)
    requires IsPlan(c, packages, plan)
    ensures plan.jobs.Keys == JOBS
  {
    hide Looked, Reason, GraphOf, NeedsMac, JobFor;
  }
}
