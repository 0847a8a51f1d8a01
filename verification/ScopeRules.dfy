/** What a change makes a run test, on the paths and the packages alone: the rules of
    `scripts/ci_scope.py` written out. */
module ScopeRules {
  import opened Text
  import opened CiScope

  // ------------------------------------------------------- the packages

  /** The last package of the name. */
  predicate LastNamed(packages: seq<Package>, i: nat, name: string)
    requires i < |packages|
  {
    packages[i].name == name && forall j :: i < j < |packages| ==> packages[j].name != name
  }

  predicate SomeNamed(packages: seq<Package>, name: string) {
    exists i :: 0 <= i < |packages| && packages[i].name == name
  }

  lemma {:induction false} GraphMeans(packages: seq<Package>, name: string)
    ensures name in GraphOf(packages) <==> SomeNamed(packages, name)
    ensures forall i :: 0 <= i < |packages| && LastNamed(packages, i, name) ==>
              name in GraphOf(packages) && GraphOf(packages)[name] == packages[i].deps
              && (name in LibsOf(packages) <==> packages[i].lib)
  {
    if packages != [] {
      var most, last, n := packages[..|packages| - 1], packages[|packages| - 1], |packages| - 1;
      GraphMeans(most, name);
      assert forall i :: 0 <= i < n ==> most[i] == packages[i];
      if last.name == name {
        assert packages[n].name == name;
      } else if SomeNamed(most, name) {
        var i :| 0 <= i < |most| && most[i].name == name;
        assert packages[i].name == name;
      }
      forall i | 0 <= i < n && LastNamed(packages, i, name) ensures LastNamed(most, i, name) && last.name != name {
        assert packages[n].name != name;
      }
    }
  }

  /** The last package of the longest directory the path is in. */
  predicate Owns(packages: seq<Package>, i: nat, path: string)
    requires i < |packages|
  {
    packages[i].dir + "/" <= path
    && (forall j :: 0 <= j < |packages| && packages[j].dir + "/" <= path ==> |packages[j].dir| <= |packages[i].dir|)
    && forall j :: i < j < |packages| ==> packages[j].dir != packages[i].dir
  }

  predicate Owned(packages: seq<Package>, path: string) {
    exists i :: 0 <= i < |packages| && packages[i].dir + "/" <= path
  }

  lemma {:induction false} DirsMean(packages: seq<Package>, dir: string)
    ensures dir in CrateDirs(packages) <==> exists i :: 0 <= i < |packages| && packages[i].dir == dir
    ensures forall i :: 0 <= i < |packages| && packages[i].dir == dir
                        && (forall j :: i < j < |packages| ==> packages[j].dir != dir) ==>
              dir in CrateDirs(packages) && CrateDirs(packages)[dir] == packages[i].name
  {
    if packages != [] {
      var most, last, n := packages[..|packages| - 1], packages[|packages| - 1], |packages| - 1;
      DirsMean(most, dir);
      assert forall i :: 0 <= i < n ==> most[i] == packages[i];
      if last.dir == dir {
        assert packages[n].dir == dir;
      } else if dir in CrateDirs(most) {
        var i :| 0 <= i < |most| && most[i].dir == dir;
        assert packages[i].dir == dir;
      }
      forall i | 0 <= i < n && packages[i].dir == dir && (forall j :: i < j < |packages| ==> packages[j].dir != dir)
        ensures last.dir != dir && forall j :: i < j < n ==> most[j].dir != dir
      {
        assert packages[n].dir != dir;
      }
    }
  }

  // ------------------------------------------------------ what a path is

  /** A path of one of the phone apps. */
  predicate OfAnApp(path: string) {
    "android/" <= path || "ios/" <= path
  }

  /** A path nothing has to be tested for. */
  predicate SaysInert(path: string) {
    path in {"LICENSE", ".gitignore", ".gitattributes", "clippy.toml", "rustfmt.toml", "deny.toml",
             ".github/dependabot.yml", ".github/CODEOWNERS"}
    || "docs/" <= path || ".claude/" <= path || ".github/ISSUE_TEMPLATE/" <= path
    || ('/' !in path && |path| >= 3 && path[|path| - 3..] == ".md")
  }

  /** A path every test depends on. */
  predicate SaysFull(path: string) {
    path in {"Cargo.toml", "Cargo.lock", "rust-toolchain", "rust-toolchain.toml", "scripts/ci_scope.py"}
    || ".config/" <= path || ".cargo/" <= path || ".github/workflows/" <= path
  }

  /** A path no package and no app has, and that is not inert. */
  predicate Loose(packages: seq<Package>, path: string) {
    !OfAnApp(path) && !Owned(packages, path) && !SaysInert(path)
  }

  lemma OwnerIsFound(packages: seq<Package>, path: string, i: nat)
    requires i < |packages| && Owns(packages, i, path)
    ensures var d := InnermostDir(CrateDirs(packages).Keys, path, |path|);
            d == Some(packages[i].dir) && packages[i].dir in CrateDirs(packages)
            && CrateDirs(packages)[packages[i].dir] == packages[i].name
  {
    var dir := packages[i].dir;
    DirsMean(packages, dir);
    assert |dir + "/"| <= |path|;
    var d := InnermostDir(CrateDirs(packages).Keys, path, |path|).value;
    DirsMean(packages, d);
    var j :| 0 <= j < |packages| && packages[j].dir == d;
    assert |d| == |dir| && d == path[..|d|] && dir == path[..|dir|];
  }

  lemma NoOwnerIsFound(packages: seq<Package>, path: string)
    requires !Owned(packages, path)
    ensures InnermostDir(CrateDirs(packages).Keys, path, |path|).None?
  {
    var d := InnermostDir(CrateDirs(packages).Keys, path, |path|);
    if d.Some? {
      DirsMean(packages, d.value);
    }
  }

  lemma StartsMeans(path: string)
    ensures StartsWithAny(path, INERT_PREFIXES)
            <==> "docs/" <= path || ".claude/" <= path || ".github/ISSUE_TEMPLATE/" <= path
    ensures StartsWithAny(path, FULL_PREFIXES)
            <==> ".config/" <= path || ".cargo/" <= path || ".github/workflows/" <= path
    ensures StartsWithAny(path, MAC_PATHS)
            <==> "crates/itsanas-touchid/" <= path || "install/macos" <= path || "scripts/itsanas-menubar" <= path
  {
    var a, b, c := INERT_PREFIXES, FULL_PREFIXES, MAC_PATHS;
    assert a[0] == "docs/" && a[1] == ".claude/" && a[2] == ".github/ISSUE_TEMPLATE/" && |a| == 3;
    assert b[0] == ".config/" && b[1] == ".cargo/" && b[2] == ".github/workflows/" && |b| == 3;
    assert c[0] == "crates/itsanas-touchid/" && c[1] == "install/macos" && |c| == 3;
    assert c[2] == "scripts/itsanas-menubar";
  }

  lemma FullMeans(path: string)
    ensures ForcesFull(path) <==> SaysFull(path)
  {
    StartsMeans(path);
  }

  /** What each path is taken for: an app's, the innermost package's, inert, a
      script, an installer's, and anything else unknown. */
  lemma PathMeans(packages: seq<Package>, path: string)
    ensures "android/" <= path ==> Classify(path, CrateDirs(packages)) == Crate("itsanas-android")
    ensures "ios/" <= path ==> Classify(path, CrateDirs(packages)) == Crate("itsanas-ios")
    ensures forall i :: 0 <= i < |packages| && Owns(packages, i, path) && !OfAnApp(path) ==>
              Classify(path, CrateDirs(packages)) == Crate(packages[i].name)
    ensures !OfAnApp(path) && !Owned(packages, path) && SaysInert(path) ==>
              Classify(path, CrateDirs(packages)) == Inert
    ensures Loose(packages, path) ==>
              Classify(path, CrateDirs(packages))
              == if "scripts/" <= path then Script else if "install/" <= path then Install else Unknown
  {
    hide StartsWithAny, CrateDirs, Owned, Owns, InnermostDir, SaysInert;
    AppsApart(path);
    forall i | 0 <= i < |packages| && Owns(packages, i, path) && !OfAnApp(path)
      ensures Classify(path, CrateDirs(packages)) == Crate(packages[i].name)
    {
      OwnerIsFound(packages, path, i);
    }
    if !Owned(packages, path) {
      NoOwnerIsFound(packages, path);
      InertMeans(path);
    }
  }

  lemma InertMeans(path: string)
    ensures SaysInert(path)
            <==> path in INERT_FILES || StartsWithAny(path, INERT_PREFIXES) || ('/' !in path && EndsWith(path, ".md"))
  {
    StartsMeans(path);
    assert EndsWith(path, ".md") <==> |path| >= 3 && path[|path| - 3..] == ".md";
    hide StartsWithAny, EndsWith;
  }

  lemma AppsApart(path: string)
    ensures "ios/" <= path ==> !("android/" <= path)
  {
    if "ios/" <= path {
      assert path[0] == "ios/"[0];
    }
    if "android/" <= path {
      assert path[0] == "android/"[0];
    }
  }

  /** Some package owns a path that is in a package's directory. */
  lemma SomeOwner(packages: seq<Package>, path: string) returns (i: nat)
    requires Owned(packages, path)
    ensures i < |packages| && Owns(packages, i, path)
  {
    var first :| 0 <= first < |packages| && packages[first].dir + "/" <= path;
    i := first;
    var k := 0;
    while k < |packages|
      invariant k <= |packages| && i < |packages| && packages[i].dir + "/" <= path
      invariant forall j :: 0 <= j < k && packages[j].dir + "/" <= path ==> |packages[j].dir| <= |packages[i].dir|
    {
      if packages[k].dir + "/" <= path && |packages[k].dir| > |packages[i].dir| {
        i := k;
      }
      k := k + 1;
    }
    i := LastOfDir(packages, i);
  }

  lemma LastOfDir(packages: seq<Package>, i: nat) returns (last: nat)
    requires i < |packages|
    ensures i <= last < |packages| && packages[last].dir == packages[i].dir
    ensures forall j :: last < j < |packages| ==> packages[j].dir != packages[i].dir
  {
    last := |packages| - 1;
    while packages[last].dir != packages[i].dir
      invariant i <= last < |packages|
      invariant forall j :: last < j < |packages| ==> packages[j].dir != packages[i].dir
      decreases last
    {
      last := last - 1;
    }
  }

  // ------------------------------------------------- what a change makes run

  /** What is done for a crate that changed: it is among the affected, tested and
      built, and the four jobs of the Rust code run. */
  predicate IsTested(plan: Plan, name: string) {
    name in plan.affected && Names(plan.tested, name) && Names(plan.built, name)
    && forall job :: job in {"test", "slow-tests", "cross-build", "minimum-rust-version"} ==>
         job in plan.jobs && plan.jobs[job].run
  }

  lemma CrateIsTested(c: Change, packages: seq<Package>, plan: Plan, path: string, name: string)
    requires IsPlan(c, packages, plan) && path in c.files && SomeNamed(packages, name)
    requires Classify(path, CrateDirs(packages)) == Crate(name)
    ensures IsTested(plan, name)
  {
    CrateIsAffected(c, packages, plan, path, name);
    AffectedIsNamed(c, packages, plan, name);
    RustJobsRun(c, packages, plan);
    hide IsPlan, Names, SomeNamed, Classify, CrateDirs;
  }

  lemma CrateIsAffected(c: Change, packages: seq<Package>, plan: Plan, path: string, name: string)
    requires IsPlan(c, packages, plan) && path in c.files && SomeNamed(packages, name)
    requires Classify(path, CrateDirs(packages)) == Crate(name)
    ensures name in plan.affected
  {
    hide IsPlan, Classify, CrateDirs, GraphOf, LibsOf, Looked, Affected, FullCause, SomeNamed;
    GraphMeans(packages, name);
    FullRuns(c, packages, plan);
    if plan.reason.None? {
      ChangedAreTheCrates(c, packages, plan);
      PartialPlan(c, packages, plan);
      AffectedStart(GraphOf(packages), plan.changed, name);
    }
  }

  lemma AffectedIsNamed(c: Change, packages: seq<Package>, plan: Plan, name: string)
    requires IsPlan(c, packages, plan) && name in plan.affected
    ensures Names(plan.tested, name) && Names(plan.built, name)
  {
    hide Looked, GraphOf, LibsOf, JobFor, NeedsMac, Reason, IsAffected;
  }

  lemma RustJobsRun(c: Change, packages: seq<Package>, plan: Plan)
    requires IsPlan(c, packages, plan) && plan.affected != {}
    ensures forall job :: job in {"test", "slow-tests", "cross-build", "minimum-rust-version"} ==>
              job in plan.jobs && plan.jobs[job].run
  {
    hide IsPlan, Looked, Wants;
    forall job | job in {"test", "slow-tests", "cross-build", "minimum-rust-version"}
      ensures job in plan.jobs && plan.jobs[job].run
    {
      RustJobWants(job, Looked(c, packages), plan.affected);
      JobPlanned(c, packages, plan, job);
    }
  }

  /** A change of a package's code tests that package, in every run: the one whose
      directory is the longest the path is in. */
  lemma ChangedCodeIsTested(c: Change, packages: seq<Package>, plan: Plan, path: string, i: nat)
    requires IsPlan(c, packages, plan) && path in c.files && !OfAnApp(path)
    requires i < |packages| && Owns(packages, i, path)
    ensures IsTested(plan, packages[i].name)
  {
    PathMeans(packages, path);
    assert SomeNamed(packages, packages[i].name);
    CrateIsTested(c, packages, plan, path, packages[i].name);
  }

  /** And a change of a phone app's folder tests that app's package. */
  lemma ChangedAppIsTested(c: Change, packages: seq<Package>, plan: Plan, path: string)
    requires IsPlan(c, packages, plan) && path in c.files
    ensures "android/" <= path && SomeNamed(packages, "itsanas-android") ==> IsTested(plan, "itsanas-android")
    ensures "ios/" <= path && SomeNamed(packages, "itsanas-ios") ==> IsTested(plan, "itsanas-ios")
  {
    PathMeans(packages, path);
    if "android/" <= path && SomeNamed(packages, "itsanas-android") {
      CrateIsTested(c, packages, plan, path, "itsanas-android");
    }
    if "ios/" <= path && SomeNamed(packages, "itsanas-ios") {
      CrateIsTested(c, packages, plan, path, "itsanas-ios");
    }
  }

  // ------------------------------------------------------- the other jobs

  /** A changed script of the repository whose path starts so. */
  predicate ScriptChanged(c: Change, packages: seq<Package>, prefix: string) {
    exists i :: 0 <= i < |c.files| && Loose(packages, c.files[i]) && "scripts/" <= c.files[i] && prefix <= c.files[i]
  }

  predicate InstallerChanged(c: Change, packages: seq<Package>) {
    exists i :: 0 <= i < |c.files| && Loose(packages, c.files[i]) && "install/" <= c.files[i]
  }

  lemma KindIsLoose(packages: seq<Package>, path: string)
    ensures Classify(path, CrateDirs(packages)) == Script <==> Loose(packages, path) && "scripts/" <= path
    ensures Classify(path, CrateDirs(packages)) == Install <==> Loose(packages, path) && "install/" <= path
  {
    PathMeans(packages, path);
    ScriptsApart(path);
    if !OfAnApp(path) && Owned(packages, path) {
      var i := SomeOwner(packages, path);
    }
    hide Classify, CrateDirs, Owned, Owns, SaysInert;
  }

  lemma ScriptsApart(path: string)
    ensures "scripts/" <= path ==> !("install/" <= path)
  {
    if "scripts/" <= path {
      assert path[0] == "scripts/"[0];
    }
    if "install/" <= path {
      assert path[0] == "install/"[0];
    }
  }

  lemma ScriptsMean(c: Change, packages: seq<Package>, plan: Plan, prefix: string)
    requires IsPlan(c, packages, plan) && plan.reason.None?
    ensures Touched(Looked(c, packages).scripts, prefix) <==> ScriptChanged(c, packages, prefix)
    ensures Looked(c, packages).install <==> InstallerChanged(c, packages)
  {
    var s, dirs := Looked(c, packages), CrateDirs(packages);
    SortedFinds(c.files, dirs);
    hide Classify, Loose;
    if i :| 0 <= i < |s.scripts| && prefix <= s.scripts[i] {
      assert s.scripts[i] in s.scripts;
      KindIsLoose(packages, s.scripts[i]);
      var j :| 0 <= j < |c.files| && c.files[j] == s.scripts[i];
      assert ScriptChanged(c, packages, prefix);
    }
    if j :| 0 <= j < |c.files| && Loose(packages, c.files[j]) && "scripts/" <= c.files[j] && prefix <= c.files[j] {
      KindIsLoose(packages, c.files[j]);
      assert c.files[j] in s.scripts;
      var i :| 0 <= i < |s.scripts| && s.scripts[i] == c.files[j];
      assert prefix <= s.scripts[i];
    }
    if s.install {
      var p :| p in c.files && Classify(p, dirs) == Install;
      KindIsLoose(packages, p);
      var j :| 0 <= j < |c.files| && c.files[j] == p;
      assert InstallerChanged(c, packages);
    }
    if j :| 0 <= j < |c.files| && Loose(packages, c.files[j]) && "install/" <= c.files[j] {
      KindIsLoose(packages, c.files[j]);
      assert c.files[j] in c.files;
    }
  }

  /** When each of the other jobs runs in a run that is not full. */
  lemma OtherJobsMean(c: Change, packages: seq<Package>, plan: Plan)
    requires IsPlan(c, packages, plan) && plan.reason.None?
    ensures plan.jobs.Keys == JOBS
    ensures plan.jobs["installers-run"].run
            <==> InstallerChanged(c, packages) || ScriptChanged(c, packages, "scripts/smoke.sh")
                 || "itsanas-cli" in plan.affected
    ensures plan.jobs["acceptance-local"].run
            <==> ScriptChanged(c, packages, "scripts/acceptance") || "itsanas-cli" in plan.affected
                 || "itsanas-coordinator" in plan.affected
    ensures plan.jobs["android-core"].run
            <==> exists name :: name in plan.affected
                                && name in {"itsanas-crypto", "itsanas-store", "itsanas-sync", "itsanas-policy",
                                            "itsanas-discover", "itsanas-placement", "itsanas-wire", "itsanas-cli"}
    ensures plan.jobs["android-app"].run
            <==> "itsanas-android" in plan.affected || ScriptChanged(c, packages, "scripts/build-apk")
                 || ScriptChanged(c, packages, "scripts/android-e2e")
    ensures plan.jobs["ios-app"].run
            <==> "itsanas-ios" in plan.affected || ScriptChanged(c, packages, "scripts/build-ios")
    ensures !plan.jobs["coverage"].run
  {
    hide IsPlan, Looked, Touched, ScriptChanged, InstallerChanged, Wants;
    PlanDecidesTheJobs(c, packages, plan);
    WantsMean(c, packages, plan);
    ScriptsMean(c, packages, plan, "scripts/smoke.sh");
    ScriptsMean(c, packages, plan, "scripts/acceptance");
    ScriptsMean(c, packages, plan, "scripts/build-apk");
    ScriptsMean(c, packages, plan, "scripts/android-e2e");
    ScriptsMean(c, packages, plan, "scripts/build-ios");
  }

  lemma WantsMean(c: Change, packages: seq<Package>, plan: Plan)
    requires IsPlan(c, packages, plan) && plan.reason.None? && plan.jobs.Keys == JOBS
    ensures var s := Looked(c, packages);
            (plan.jobs["installers-run"].run
             <==> s.install || Touched(s.scripts, "scripts/smoke.sh") || "itsanas-cli" in plan.affected)
            && (plan.jobs["acceptance-local"].run
                <==> Touched(s.scripts, "scripts/acceptance") || "itsanas-cli" in plan.affected
                     || "itsanas-coordinator" in plan.affected)
            && (plan.jobs["android-core"].run <==> exists name :: name in plan.affected && name in ANDROID_CORE)
            && (plan.jobs["android-app"].run
                <==> "itsanas-android" in plan.affected || Touched(s.scripts, "scripts/build-apk")
                     || Touched(s.scripts, "scripts/android-e2e"))
            && (plan.jobs["ios-app"].run
                <==> "itsanas-ios" in plan.affected || Touched(s.scripts, "scripts/build-ios"))
            && !plan.jobs["coverage"].run
  {
    hide IsPlan, Looked, Touched, WhySkip;
    JobPlanned(c, packages, plan, "installers-run");
    JobPlanned(c, packages, plan, "acceptance-local");
    JobPlanned(c, packages, plan, "android-core");
    JobPlanned(c, packages, plan, "android-app");
    JobPlanned(c, packages, plan, "ios-app");
    JobPlanned(c, packages, plan, "coverage");
    assert forall name :: name in ANDROID_CORE * plan.affected <==> name in plan.affected && name in ANDROID_CORE;
  }

  /** When the run needs a Mac. */
  lemma MacMeans(c: Change, packages: seq<Package>, plan: Plan)
    requires IsPlan(c, packages, plan)
    ensures plan.mac
            <==> !c.pullRequest || c.milestone || c.mentionsMac != {}
                 || exists i :: 0 <= i < |c.files|
                                && ("crates/itsanas-touchid/" <= c.files[i] || "install/macos" <= c.files[i]
                                    || "scripts/itsanas-menubar" <= c.files[i])
  {
    forall i | 0 <= i < |c.files|
      ensures StartsWithAny(c.files[i], MAC_PATHS)
              <==> "crates/itsanas-touchid/" <= c.files[i] || "install/macos" <= c.files[i]
                   || "scripts/itsanas-menubar" <= c.files[i]
    {
      StartsMeans(c.files[i]);
    }
    hide StartsWithAny, GraphOf, Looked, JobFor, LibsOf;
  }

  // ----------------------------------------------------- why a run is full

  lemma {:induction false} ForcingIsFirst(files: seq<string>, k: nat)
    requires k < |files| && SaysFull(files[k]) && forall j :: 0 <= j < k ==> !SaysFull(files[j])
    ensures FirstForcing(files) == Some(files[k])
    decreases |files|
  {
    FullMeans(files[0]);
    hide ForcesFull, SaysFull;
    if k > 0 {
      assert files[1..][k - 1] == files[k];
      forall j | 0 <= j < k - 1 ensures !SaysFull(files[1..][j]) {
        assert files[1..][j] == files[j + 1];
      }
      ForcingIsFirst(files[1..], k - 1);
    }
  }

  lemma NoneForcing(files: seq<string>)
    requires forall i :: 0 <= i < |files| ==> !SaysFull(files[i])
    ensures FirstForcing(files) == None
  {
    var r := FirstForcing(files);
    if r.Some? {
      FullMeans(r.value);
    }
  }

  lemma {:induction false} UnknownIsFirst(files: seq<string>, dirs: map<string, string>, k: nat)
    requires k < |files| && Classify(files[k], dirs) == Unknown
    requires forall j :: 0 <= j < k ==> Classify(files[j], dirs) != Unknown
    ensures SortPaths(files, dirs).unknown != [] && SortPaths(files, dirs).unknown[0] == files[k]
    decreases |files|
  {
    hide Classify;
    var most := files[..|files| - 1];
    if k < |files| - 1 {
      assert most[k] == files[k] && forall j :: 0 <= j < k ==> most[j] == files[j];
      UnknownIsFirst(most, dirs, k);
    } else {
      NoUnknown(most, dirs);
    }
  }

  lemma {:induction false} NoUnknown(files: seq<string>, dirs: map<string, string>)
    requires forall j :: 0 <= j < |files| ==> Classify(files[j], dirs) != Unknown
    ensures SortPaths(files, dirs).unknown == []
  {
    hide Classify;
    if files != [] {
      NoUnknown(files[..|files| - 1], dirs);
    }
  }

  /** The reason written: in this order, no pull request, the milestone, the first
      path every test depends on, the first nobody classified. */
  lemma ReasonMeans(c: Change, packages: seq<Package>, plan: Plan)
    requires IsPlan(c, packages, plan)
    ensures !c.pullRequest ==> plan.reason == Some(NotAPullRequest)
    ensures c.pullRequest && c.milestone ==> plan.reason == Some(Milestone)
    ensures c.pullRequest && !c.milestone ==>
              forall k :: 0 <= k < |c.files| && SaysFull(c.files[k])
                          && (forall j :: 0 <= j < k ==> !SaysFull(c.files[j])) ==>
                plan.reason == Some(Changed(c.files[k]))
    ensures c.pullRequest && !c.milestone && (forall j :: 0 <= j < |c.files| ==> !SaysFull(c.files[j])) ==>
              forall k :: 0 <= k < |c.files| && SaysUnknown(packages, c.files[k])
                          && (forall j :: 0 <= j < k ==> !SaysUnknown(packages, c.files[j])) ==>
                plan.reason == Some(Unclassified(c.files[k]))
    ensures c.pullRequest && !c.milestone
            && (forall j :: 0 <= j < |c.files| ==> !SaysFull(c.files[j]) && !SaysUnknown(packages, c.files[j])) ==>
              plan.reason == None
  {
    if c.pullRequest && !c.milestone {
      forall k | 0 <= k < |c.files| && SaysFull(c.files[k]) && (forall j :: 0 <= j < k ==> !SaysFull(c.files[j]))
        ensures plan.reason == Some(Changed(c.files[k]))
      {
        ForcingIsFirst(c.files, k);
      }
      if forall j :: 0 <= j < |c.files| ==> !SaysFull(c.files[j]) {
        NoneForcing(c.files);
        UnknownReason(c, packages, plan);
      }
    }
  }

  /** A path nobody classified. */
  predicate SaysUnknown(packages: seq<Package>, path: string) {
    Loose(packages, path) && !("scripts/" <= path) && !("install/" <= path)
  }

  lemma UnknownIsLoose(packages: seq<Package>, path: string)
    ensures Classify(path, CrateDirs(packages)) == Unknown <==> SaysUnknown(packages, path)
  {
    PathMeans(packages, path);
    if !OfAnApp(path) && Owned(packages, path) {
      var i := SomeOwner(packages, path);
    }
    hide Classify, CrateDirs, Owned, Owns, SaysInert;
  }

  lemma UnknownReason(c: Change, packages: seq<Package>, plan: Plan)
    requires IsPlan(c, packages, plan) && WhyFull(c).None?
    ensures forall k :: 0 <= k < |c.files| && SaysUnknown(packages, c.files[k])
                        && (forall j :: 0 <= j < k ==> !SaysUnknown(packages, c.files[j])) ==>
              plan.reason == Some(Unclassified(c.files[k]))
    ensures (forall j :: 0 <= j < |c.files| ==> !SaysUnknown(packages, c.files[j])) ==> plan.reason == None
  {
    var dirs := CrateDirs(packages);
    forall j | 0 <= j < |c.files| ensures Classify(c.files[j], dirs) == Unknown <==> SaysUnknown(packages, c.files[j]) {
      UnknownIsLoose(packages, c.files[j]);
    }
    hide Classify, SaysUnknown, CrateDirs, GraphOf, JobFor, NeedsMac;
    forall k | 0 <= k < |c.files| && SaysUnknown(packages, c.files[k])
               && (forall j :: 0 <= j < k ==> !SaysUnknown(packages, c.files[j]))
      ensures plan.reason == Some(Unclassified(c.files[k]))
    {
      UnknownIsFirst(c.files, dirs, k);
    }
    if forall j :: 0 <= j < |c.files| ==> !SaysUnknown(packages, c.files[j]) {
      NoUnknown(c.files, dirs);
    }
  }

  // -------------------------------------------------- what is affected

  /** A chain of dependencies, from a crate to a changed one. */
  predicate Chain(deps: Graph, changed: set<string>, chain: seq<string>) {
    chain != [] && chain[|chain| - 1] in changed
    && (forall i :: 0 <= i < |chain| ==> chain[i] in deps)
    && forall i :: 0 <= i < |chain| - 1 ==> chain[i] in deps && chain[i + 1] in deps[chain[i]]
  }

  lemma {:induction false} ChainReaches(deps: Graph, changed: set<string>, chain: seq<string>)
    requires Chain(deps, changed, chain)
    ensures Affected(deps, changed, chain[0])
    decreases |chain|
  {
    if |chain| == 1 {
      AffectedStart(deps, changed, chain[0]);
    } else {
      var rest := chain[1..];
      assert forall i :: 0 <= i < |rest| ==> rest[i] == chain[i + 1];
      assert chain[0 + 1] in deps[chain[0]];
      forall i | 0 <= i < |rest| - 1 ensures rest[i + 1] in deps[rest[i]] {
        assert chain[i + 1 + 1] in deps[chain[i + 1]];
      }
      ChainReaches(deps, changed, rest);
      AffectedStep(deps, changed, chain[0], chain[1]);
    }
  }

  lemma {:induction false} ReachesByChain(deps: Graph, changed: set<string>, name: string, n: nat)
    returns (chain: seq<string>)
    requires Reaches(deps, changed, name, n)
    ensures Chain(deps, changed, chain) && chain[0] == name
    decreases n
  {
    if n == 0 {
      chain := [name];
    } else {
      var d :| d in deps[name] && Reaches(deps, changed, d, n - 1);
      var rest := ReachesByChain(deps, changed, d, n - 1);
      chain := [name] + rest;
      forall i | 0 <= i < |chain| - 1 ensures chain[i] in deps && chain[i + 1] in deps[chain[i]] {
        if i > 0 {
          assert chain[i] == rest[i - 1] && chain[i + 1] == rest[i - 1 + 1];
        }
      }
    }
  }

  /** The affected are exactly the packages a chain of dependencies leads from to a
      changed one. */
  lemma AffectedByChain(deps: Graph, changed: set<string>, name: string)
    ensures Affected(deps, changed, name) <==> exists chain :: Chain(deps, changed, chain) && chain[0] == name
  {
    if Affected(deps, changed, name) {
      var n: nat :| Reaches(deps, changed, name, n);
      var chain := ReachesByChain(deps, changed, name, n);
    }
    if chain :| Chain(deps, changed, chain) && chain[0] == name {
      ChainReaches(deps, changed, chain);
    }
  }

  /** What changed, on the paths: the apps' packages and the owners of the others. */
  lemma ChangedMeans(c: Change, packages: seq<Package>, plan: Plan, name: string)
    requires IsPlan(c, packages, plan) && plan.reason.None?
    ensures name in plan.changed <==> exists k :: 0 <= k < |c.files| && BelongsTo(packages, c.files[k], name)
  {
    hide IsPlan, Classify, CrateDirs, BelongsTo;
    ChangedAreTheCrates(c, packages, plan);
    forall path | path in c.files
      ensures BelongsTo(packages, path, name) <==> Classify(path, CrateDirs(packages)) == Crate(name)
    {
      BelongsMeans(packages, path, name);
    }
    if name in plan.changed {
      var path :| path in c.files && Classify(path, CrateDirs(packages)) == Crate(name);
      var k :| 0 <= k < |c.files| && c.files[k] == path;
      assert BelongsTo(packages, c.files[k], name);
    }
    if k :| 0 <= k < |c.files| && BelongsTo(packages, c.files[k], name) {
      assert c.files[k] in c.files;
    }
  }

  /** Whose the path is. */
  predicate BelongsTo(packages: seq<Package>, path: string, name: string) {
    ("android/" <= path && name == "itsanas-android")
    || ("ios/" <= path && name == "itsanas-ios")
    || (!OfAnApp(path) && exists i :: 0 <= i < |packages| && Owns(packages, i, path) && packages[i].name == name)
  }

  lemma BelongsMeans(packages: seq<Package>, path: string, name: string)
    ensures BelongsTo(packages, path, name) <==> Classify(path, CrateDirs(packages)) == Crate(name)
  {
    hide Classify, CrateDirs, Owned, Owns, SaysInert;
    PathMeans(packages, path);
    AppsApart(path);
    if !OfAnApp(path) && Owned(packages, path) {
      var i := SomeOwner(packages, path);
    }
  }

  /** What a run that is not full tests, builds and documents: exactly the packages
      a chain of dependencies leads from to a changed one; of the documented, those
      whose last package is a library. The smoke script asks for the command line
      program. */
  lemma PartialMeans(c: Change, packages: seq<Package>, plan: Plan, name: string)
    requires IsPlan(c, packages, plan) && plan.reason.None?
    ensures name in plan.affected
            <==> exists chain :: Chain(GraphOf(packages), plan.changed, chain) && chain[0] == name
    ensures plan.tested == Crates(plan.affected) && plan.built == Crates(plan.affected)
    ensures plan.documented.Crates?
    ensures forall i :: 0 <= i < |packages| && LastNamed(packages, i, name) ==>
              (name in plan.documented.names <==> name in plan.affected && packages[i].lib)
    ensures plan.smoke <==> "itsanas-cli" in plan.affected
  {
    hide Looked, GraphOf, LibsOf, JobFor, Affected, Chain, NeedsMac, Reason;
    PartialPlan(c, packages, plan);
    AffectedByChain(GraphOf(packages), plan.changed, name);
    GraphMeans(packages, name);
  }
}
