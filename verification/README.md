# itsanas: the daemon's decisions, the folder view and the small protocols, proved

This Dafny project models the parts of itsanas whose promises are about whole runs,
whole accounts or whole files, and proves those promises for every input.
`dafny verify dfyconfig.toml` checks all of it.

| module | what it models |
|---|---|
| `ControlFile` | the control file: parse, print, and the bounded read of its bytes |
| `Steering` | the steering that decides Wait, Publish or Round, over every run |
| `SteeringHistory` | the same answers and log lines, from the events of a run alone |
| `SyncLoop` | the daemon's loop that drives the steering and the snapshot |
| `Pace` | how often the snapshot is written and an outage is said |
| `Park` | the parking loop over relays, against arbitrary answers |
| `Civil`, `Durations` | the date of a moment; durations typed and said |
| `FileTree`, `TreeRules`, `StorePath` | one folder at a time out of a flat list of paths, and the walk over all; the answer on the paths alone; the paths a store takes |
| `CiScope`, `ScopeRules` | which crates and jobs a change needs, and the verdict on a finished run; the rules on the paths and packages alone |
| `Progress`, `Sizes`, `Bargain` | the progress record; sizes shown and read back; price and earnings |
| `Withdrawals`, `Logouts` | the device slots a logout could not give back, and the homes it set aside; what each event does to each name |
| `Pages`, `PageHistory` | which page of the phone's engine is current, under every interleaving; the same runs from their events alone |
| `Text`, `Utf8`, `Sorting`, `Arithmetic`, `Sets` | the standard-library pieces these lean on |

Code that updates state is a class or a method with a loop, proved equal to a
specification function or relation; the theorems over runs are lemmas about those.
Beside each specification stand lemmas that say the same in other terms, with the
source's constants written out: the events of a run, the prefixes of a path, the
characters of a text.
Instants and durations are nanoseconds, wall clocks Unix seconds, both as naturals;
64-bit limits are explicit. The file, the disk, the coordinator, relays and peers are
arbitrary answers given as parameters.

## What turned out to need a condition

Each of these holds exactly under a condition the lemma states, in both directions:

- A duration said by `describe_every` can be typed back unless it is a whole number of
  days: `1 day` and `30 days` are not durations `seconds_in` reads
  (`Durations.DescribedIsTypable`). So the longest interval and the longest pause
  cannot be typed as a refusal names them.
- A wait said by `describe_wait` is not shorter than the wait left exactly below two days
  and, from there on, at whole days: seventy-one hours are said to be `2 days`
  (`Durations.WaitSaidIsNotShort`, `Durations.SeventyOneHours`).
- Tapping down the folders ends exactly when no path starts with a slash or holds two
  together; otherwise an empty folder is answered by the one above it, for ever
  (`FileTree.WalkEndsIffTidy`, and `FileTree.LeadingSlashLoops` at one path). The
  listing `level`'s caller reads (`crates/itsanas-cli/src/phone.rs:285-300`) looks every
  path up in the store, which refuses such ones
  (`crates/itsanas-store/src/catalogue.rs:135-200`,
  `crates/itsanas-store/src/path.rs:36-89`), so the walk covers every account listed
  (`StorePath.StoredIsTidy`).
- A plan writes every skip's reason, and obeying it is green, exactly when the run is
  full, or no changed path is a crate's, or some changed path is that of a package
  (`CiScope.SkipsHaveReasons`, `CiScope.ObeyedIsGreen`; `CiScope.UnexplainedSkip` and
  `CiScope.UnexplainedWorkspace` are changes for which it is neither).
- Price and earnings are adjoint in 64 bits exactly when the pledge is not
  `u64::MAX` or the price fits (`Bargain.AdjointInSixtyFourBits`).
- A drive accepted by `room` has the room exactly when programs and content fit in 64
  bits (`Sizes.AcceptedHasRoom`, `Sizes.AcceptedWithoutRoom`).
- A device that left untold waits in the marker exactly as often as it left, less its
  lines that were answered, less the slots the disk lost
  (`Withdrawals.SlotsAreConserved`); each line is asked about by itself, so a device
  listed twice can be answered about and wait still
  (`Withdrawals.AnsweredAndStillWaiting`). A slot is lost exactly by a logout that could
  not write the marker, or could not read one that was there: it is written over
  (`Withdrawals.ForgottenIffLost`, `Withdrawals.SlotLostUnwritten`,
  `Withdrawals.SlotLostUnread`).
- A phone asks the coordinator to withdraw the very device it is exactly when a logout
  that was not told, and whose home could not be set aside, is followed by an open of
  that home (`Withdrawals.AsksAboutItselfWhenItStayed`, `Withdrawals.StayedDeviceAsks`).
- A progress record survives its file exactly when all of it but its line end is within
  64 KiB; a longer one reads as none (`Progress.ProgressSurvivesIffItFits`,
  `Progress.LongRecordIsLost`).
- A string written by anyone as section 7 of RFC 8259 allows is read as what it says
  exactly when it uses neither the short form of the backspace nor that of the form
  feed, which are read as their letters (`Progress.StandardStringReads`). The writer
  uses neither.
- Two starts of the page at once can leave a served page that nothing can stop; that happens
  exactly when one page's stop is put in the slot over another's, and never with calls
  one at a time (`Pages.OutOfReachIffOverwritten`, `Pages.NoneOutOfReachOneAtATime`).

Where the code and its comments differ the code is followed: the rounds an outage's
line counts are those failed since the last success, not since the last line
(`daemon.rs:228-274`), and the control file has four keys where a comment speaks of
three lines (`control.rs:51-57`).

## Model

| member | source | states |
|---|---|---|
| ControlFile.Parse | crates/itsanas-cli/src/control.rs:159-182 | the line-by-line loop answers what the specification of the four keys does, refusals included |
| ControlFile.Render | crates/itsanas-cli/src/control.rs:185-198 | the text is the present keys, one line each, in order |
| ControlFile.UnknownLinesNeverMatter | crates/itsanas-cli/src/control.rs:155-182 | unknown keys, comments and blanks, anywhere among lines of any kind, never change the answer |
| ControlFile.ParseOfRendered | crates/itsanas-cli/src/control.rs:159-198 | a printed control followed by any such lines parses to that control |
| ControlFile.ParseRenderRoundTrip | crates/itsanas-cli/src/control.rs:159-198 | parse of render is the control, for every control |
| ControlFile.Read | crates/itsanas-cli/src/control.rs:115-153 | the bounded read and cut answer as specified: absent, unreadable, too long with no line end, holding a NUL, not UTF-8, malformed, understood |
| ControlFile.ReadingOfGrown | crates/itsanas-cli/src/control.rs:115-153 | a control followed by any length of such lines reads as itself when the file is within 4096 bytes or those hold a line end, and is otherwise refused, never read as asking nothing |
| ControlFile.GrownControlStillReads | crates/itsanas-cli/src/control.rs:115-153 | a control that asks anything is never lost to growth |
| ControlFile.UnderstoodIsOneText | crates/itsanas-cli/src/control.rs:115-153 | a file of any bytes is understood as a control if and only if the bytes looked at encode a NUL-free text that parses to it, and there is only one such text |
| ControlFile.TextMeans | crates/itsanas-cli/src/control.rs:155-182 | for every text: refused if and only if some line names one of the four keys with no number after it; otherwise each key has the number of its last line, and is absent if it has none |
| ControlFile.RenderedReads | crates/itsanas-cli/src/control.rs:185-198 | the printed text, character by character, for every control |
| ControlFile.PortionMeans | crates/itsanas-cli/src/control.rs:115-153 | the bytes looked at: all up to 4096; of more, those to the last line feed of the first 4096, and none without one |
| ControlFile.NoFileAsksNothing | crates/itsanas-cli/src/control.rs:115-153 | a file that is not there asks for nothing; one that cannot be read is a failure |
| Steering.Steering.Start | crates/itsanas-cli/src/control.rs:296-319 | the first state: an unreadable file starts paused, and a stamp already there is not honoured again |
| Steering.Steering.Refresh | crates/itsanas-cli/src/control.rs:329-373 | the whole new state and every line said, for a read that failed or succeeded |
| Steering.Steering.ChangedHere | crates/itsanas-cli/src/control.rs:396-398 | only the first pending change sets the instant |
| Steering.Steering.Decide | crates/itsanas-cli/src/control.rs:389-430 | the answer and the state it leaves |
| Steering.PauseFollowsTheFile | crates/itsanas-cli/src/control.rs:204-206 | in every run the pause is that of the control last understood at the clock last given |
| Steering.NoRoundWhilePaused | crates/itsanas-cli/src/control.rs:410-430 | at every ask of every run a Round means no pause and a Publish means one |
| Steering.OpenPauseOutlivesFailedReads | crates/itsanas-cli/src/control.rs:329-363 | reads that fail never lift an open-ended pause |
| Steering.UnreadStartNeverSyncs | crates/itsanas-cli/src/control.rs:296-319 | after a first read that failed, no Round before one succeeds |
| Steering.LogTellsThePause | crates/itsanas-cli/src/control.rs:329-363 | the last pause or resumption said is the state, over every run |
| Steering.ChangeWaitsForARound | crates/itsanas-cli/src/control.rs:392-430 | without a Round a pending change stays, at its own instant |
| Steering.OnlyARoundTakesTheChange | crates/itsanas-cli/src/control.rs:392-430 | over any run without a further change, a pending one is gone if and only if some ask was answered by a Round |
| Steering.ChangeIsSent | crates/itsanas-cli/src/control.rs:392-430 | the first unpaused ask past both waits answers Round, whatever happened between |
| Steering.UnaskedDialsAreSpaced | crates/itsanas-cli/src/control.rs:284-435 | from any state, the dials beyond clicks and ended pauses are a gap apart |
| Steering.RateBound | crates/itsanas-cli/src/control.rs:284-435 | dials over any timed run are at most 1 + clicks + ended pauses + time over the gap (30 s, or a shorter base) |
| Steering.OneClickIsOneRound | crates/itsanas-cli/src/control.rs:400-430 | a new stamp is answered at the next ask, Publish when paused, and however long it stays in the file what follows dials no more than the gap and the ended pauses allow |
| SteeringHistory.TheAnswer | crates/itsanas-cli/src/control.rs:389-435 | in every run, from its events alone: an ask is answered Wait if and only if there is no unanswered click, no pause ended since the last ask, no settled change, a last round and less than the interval since; otherwise Publish when paused and Round when not |
| SteeringHistory.IntervalBringsARound | crates/itsanas-cli/src/control.rs:389-435 | an ask at or past the last end and the interval of the file last understood (30 s to a day, or the base) is answered Round, Publish when paused |
| SteeringHistory.EndedPauseBringsARound | crates/itsanas-cli/src/control.rs:329-430 | the first ask after a pause ended, and while none holds, is answered Round |
| SteeringHistory.TheLog | crates/itsanas-cli/src/control.rs:329-373 | every line a read says, from the reads before it: the pause begun, over or lifted, the interval as held to its bounds, the first of failed reads |
| SyncLoop.TakeTurn | crates/itsanas-cli/src/daemon.rs:1250-1336 | one turn of the loop is a refresh, a change taken in unless paused, an ask and a look at the snapshot |
| SyncLoop.SyncLoop | crates/itsanas-cli/src/daemon.rs:1206-1343 | the loop's answers and writes are those of the steering and the pace over the same turns |
| SyncLoop.LoopRateBound | crates/itsanas-cli/src/daemon.rs:1268-1293 | the rate bound for the loop as it feeds the steering |
| SyncLoop.ChangeIsAnsweredInTime | crates/itsanas-cli/src/daemon.rs:1250-1293 | unpaused, with turns asking at most d apart, a change waiting since t is answered by a Round asked no later than d after it has settled and half a minute has passed since the last round |
| SyncLoop.TakenInIsSent | crates/itsanas-cli/src/daemon.rs:1250-1293 | the same for a change the loop takes in, from any state of it |
| SyncLoop.NoConnectionLosesNothing | crates/itsanas-cli/src/daemon.rs:1268-1293 | a machine that may dial nobody never does, and keeps a change waiting at its instant over every run of turns |
| SyncLoop.PausedTurnTouchesNothing | crates/itsanas-cli/src/daemon.rs:1250-1293 | a paused turn takes in nothing and runs no round |
| SyncLoop.LoopRunsItsEvents | crates/itsanas-cli/src/daemon.rs:1206-1343 | turns compose: the loop goes on from the state its events left |
| SyncLoop.TurnMeans | crates/itsanas-cli/src/daemon.rs:1250-1336 | a turn in terms of the file read and the folder: what it takes in, what it asks, when its round ends, and the pass given to the snapshot |
| SyncLoop.RoundsKeepTheInterval | crates/itsanas-cli/src/daemon.rs:1268-1293 | unpaused, with turns asking at most d apart, the next Round is asked no later than d past the interval from the end of the last, however the interval moves below a bound |
| Pace.SnapshotPace.After | crates/itsanas-cli/src/daemon.rs:159-194 | the write, and the stamp it leaves |
| Pace.SnapshotNeverStale | crates/itsanas-cli/src/daemon.rs:139-194 | consecutive writes are less than the longest patience plus a pass apart, however the interval moves |
| Pace.SnapshotNeverStaleFromStart | crates/itsanas-cli/src/daemon.rs:139-194 | less than min(30 s, interval) + d apart, with one interval |
| Pace.SnapshotWritesBounded | crates/itsanas-cli/src/daemon.rs:139-194 | writes are at most 1 + news + interval changes + time over the patience |
| Pace.SnapshotWrittenExactly | crates/itsanas-cli/src/daemon.rs:139-194 | over every run of passes, a pass writes if and only if none did, it has news, the interval is not that of the last written, or the lesser of 30 s and the interval has passed since |
| Pace.Outage.constructor | crates/itsanas-cli/src/daemon.rs:238-244 | the first state |
| Pace.Outage.Failed | crates/itsanas-cli/src/daemon.rs:246-263 | the line said, if any, and the new state |
| Pace.Outage.Succeeded | crates/itsanas-cli/src/daemon.rs:265-273 | the line said, if any, and the new state |
| Pace.OutagesAreWellTold | crates/itsanas-cli/src/daemon.rs:228-274 | every outage is said at its first failure and ended at the first success; the log tells the last attempt |
| Pace.ComplaintsCountTheOutage | crates/itsanas-cli/src/daemon.rs:246-263 | the number said is the failures since the last success |
| Pace.ComplaintsAreSpaced | crates/itsanas-cli/src/daemon.rs:246-263 | complaints of one outage are half an hour apart |
| Pace.OutageLinesBounded | crates/itsanas-cli/src/daemon.rs:219-263 | an outage says at most one line more than its half hours |
| Pace.TheLines | crates/itsanas-cli/src/daemon.rs:219-274 | every line said over every run of attempts, from the attempts alone |
| Civil.DateIsTheCalendar | crates/itsanas-cli/src/control.rs:519-543 | every day's date is valid and the next day's is the calendar's tomorrow |
| Civil.DayZero | crates/itsanas-cli/src/control.rs:519-543 | day 0 is 1970-01-01 |
| Civil.DatesIncrease | crates/itsanas-cli/src/control.rs:519-543 | later days have later dates |
| Civil.EveryDateHasADay | crates/itsanas-cli/src/control.rs:519-543 | every valid date from 1970 on is some day's |
| Civil.DatedIsFourDigits | crates/itsanas-cli/src/control.rs:88-90 | a moment has a text if and only if its year is at most 9999 |
| Civil.MomentsReadAlike | crates/itsanas-cli/src/control.rs:519-543 | two moments read alike if and only if they are in the same minute |
| Civil.MomentReads | crates/itsanas-cli/src/control.rs:519-543 | the text is the year in four digits, month and day in two, hour and minute, in that order, with its separators and UTC, each read back as the number it is |
| Durations.DescribedIsTypable | crates/itsanas-cli/src/control.rs:485-555 | what is said reads back as the same seconds if and only if it is no whole number of days |
| Durations.DescribedIntervalIsAccepted | crates/itsanas-cli/src/control.rs:444-460 | an interval as said is accepted if and only if it is allowed and not the longest |
| Durations.DescribedPauseIsAccepted | crates/itsanas-cli/src/control.rs:468-481 | a pause as said is accepted if and only if it is allowed and no whole number of days |
| Durations.DurationMeans | crates/itsanas-cli/src/control.rs:485-497 | for every text: it is so many seconds if and only if it is digits followed by nothing, s, m, min, h or d, at 1, 1, 60, 60, 3600 and 86400 |
| Durations.BoundsMean | crates/itsanas-cli/src/control.rs:444-481 | the bounds of an interval and of a pause, in seconds |
| Durations.EverySaid | crates/itsanas-cli/src/control.rs:547-555 | the words for every number of seconds: whole days, hours and minutes, or seconds |
| Durations.WaitSaid | crates/itsanas-cli/src/control.rs:498-510 | the words for every wait: minutes below two hours, hours and minutes below two days, then days |
| Durations.NeverZeroMinutes | crates/itsanas-cli/src/control.rs:502-510 | a wait is said `0 min` if and only if it is over |
| Durations.WordsTellTheWait | crates/itsanas-cli/src/control.rs:498-510 | different waits are said differently |
| Durations.WaitSaidIsNotShort | crates/itsanas-cli/src/control.rs:498-510 | the wait said is not shorter than the wait left if and only if it is below 2880 minutes, rounded up, or a whole number of days; never a minute longer nor a day shorter |
| Durations.SeventyOneHours | crates/itsanas-cli/src/control.rs:498-510 | one wait said too short |
| Park.Offer | crates/itsanas-cli/src/daemon.rs:623-680 | the relay is announced only while the machine is unreachable and the book lists it |
| Park.StayParked | crates/itsanas-cli/src/daemon.rs:623-680 | the inner loop ends announced behind nobody, or stopping after a caller |
| Park.ParkLoop | crates/itsanas-cli/src/daemon.rs:623-680 | whatever is answered, the loop's log is a whole run of the protocol |
| Park.AnnouncementsAreRight | crates/itsanas-cli/src/daemon.rs:575-680 | never parks on or announces itself; a park finds that relay announced; a look finds nobody announced |
| Park.FailedIsPassedOver | crates/itsanas-cli/src/daemon.rs:623-680 | under any books, a relay that failed is not parked on until a look finds every listed one failed |
| Park.FailuresGoRound | crates/itsanas-cli/src/daemon.rs:623-680 | with one list, failures go round its other devices in order |
| Park.EveryOtherFailsOnce | crates/itsanas-cli/src/daemon.rs:623-680 | in every run with one list of relays, between two consecutive failures of one every other machine listed fails exactly once |
| Park.LookOnce | crates/itsanas-cli/src/daemon.rs:623-680 | one pass of the outer loop, as a whole piece of the protocol |
| Park.AfterALook | crates/itsanas-cli/src/daemon.rs:623-680 | in every log: after a look that goes on comes the question of reach; unreachable, the book is read, and otherwise the next look follows |
| Park.AfterTheBook | crates/itsanas-cli/src/daemon.rs:623-680 | a book that lists another machine is followed by the question of reach, any other by the next look |
| Park.ChoiceIsParkedOn | crates/itsanas-cli/src/daemon.rs:623-680 | the relay chosen is the first listed other that has not failed since all had; still unreachable and still listed, it is announced and parked on |
| Park.SomebodyIsLeft | crates/itsanas-cli/src/daemon.rs:623-680 | a book that lists another machine always leaves one to choose |
| Park.BeforeAPark | crates/itsanas-cli/src/daemon.rs:623-680 | every park comes just after an unreachable answer, a book that lists the relay and its announcement |
| Park.AfterAFailedPark | crates/itsanas-cli/src/daemon.rs:623-680 | a park that failed is followed by nobody announced and the next look |
| Park.AfterACaller | crates/itsanas-cli/src/daemon.rs:623-680 | a caller is followed by the question of stopping, and then by the end or the same relay again |
| FileTree.Nearest | crates/itsanas-cli/src/file_tree.rs:59-65 | the longest ancestor some file still goes through, or the root |
| FileTree.NearestIsUnique | crates/itsanas-cli/src/file_tree.rs:59-65 | there is only one such ancestor |
| FileTree.LevelAt | crates/itsanas-cli/src/file_tree.rs:69-104 | the folder answered for, its own files, and each name below it once with its three figures; files in order of their lower-cased paths, equals as listed; folders by lower-cased name, equals by name |
| FileTree.DescentAnswersItself | crates/itsanas-cli/src/file_tree.rs:69-104 | asking for a listed folder's path answers that folder |
| FileTree.Walk | crates/itsanas-cli/src/file_tree.rs:51-104 | tapping every folder ends and meets exactly the multiset of entries |
| FileTree.FiguresAgree | crates/itsanas-cli/src/file_tree.rs:69-104 | a line's figures are those of everything below, and of what its own level shows |
| FileTree.LevelTotals | crates/itsanas-cli/src/file_tree.rs:69-104 | what a level shows adds up to everything below it |
| FileTree.OneAnswer | crates/itsanas-cli/src/file_tree.rs:69-104 | what is stated of an answer leaves one answer for an account |
| FileTree.OrderMattersAmongEqualsOnly | crates/itsanas-cli/src/file_tree.rs:69-104 | for two orders of the same entries the folder, its folders and their figures are the same, and the whole answer is if and only if files with equal lower-cased paths stand in the same order |
| FileTree.WalkEndsIffTidy | crates/itsanas-cli/src/file_tree.rs:51-104 | every walk is bounded if and only if no path has an empty folder |
| FileTree.LeadingSlashLoops | crates/itsanas-cli/src/file_tree.rs:51-104 | one account, and walks of it of every length |
| TreeRules.LevelStands | crates/itsanas-cli/src/file_tree.rs:51-65 | the answer is for the folder asked for, slashes at its ends aside, or the nearest over it some path starts with |
| TreeRules.LevelFiles | crates/itsanas-cli/src/file_tree.rs:69-104 | a file is listed, as often as the account has it, if and only if its path is the folder and a slash and then no slash |
| TreeRules.LevelFolders | crates/itsanas-cli/src/file_tree.rs:69-104 | a folder is listed, once, if and only if some path starts with it and a slash; with its path, and over the paths that start so their number, their sizes held to 64 bits, and how many are not here |
| TreeRules.LevelOrder | crates/itsanas-cli/src/file_tree.rs:96-98 | both lists in dictionary order of the lower-cased names, folders that tie by name |
| StorePath.Validate | crates/itsanas-store/src/path.rs:36-89 | the first refusal in the source's order, none if and only if the path and every part of it are acceptable |
| StorePath.PartsNonEmptyIffTidy | crates/itsanas-store/src/path.rs:36-89 | no part between slashes is empty if and only if the path is tidy, not empty and without a slash at its end |
| StorePath.AcceptedMeans | crates/itsanas-store/src/path.rs:36-89 | for every path: accepted if and only if it is not empty, at most 1024 bytes, without backslash, control character, drive letter or slash at an end, and every part is at most 255 bytes, not dots, not ended by a space or a dot, and no name Windows keeps |
| StorePath.StoredIsTidy | crates/itsanas-store/src/path.rs:36-89 | an account of accepted paths is one the walk covers |
| CiScope.Reverse | scripts/ci_scope.py:162-178 | the graph turned round |
| CiScope.Dependents | scripts/ci_scope.py:162-178 | the worklist ends on every graph with exactly the packages that reach a changed one |
| CiScope.GrownUntilNothingJoins | scripts/check-ci-scope.py:189-196 | the independent computation ends with the same set |
| CiScope.AffectedIsLeastFixpoint | scripts/ci_scope.py:162-178 | that set is closed and within every closed set |
| CiScope.AffectedGrows | scripts/ci_scope.py:162-178 | more changed crates, no fewer affected |
| CiScope.Decide | scripts/ci_scope.py:185-274 | the loops answer the plan specified: the reason, the crates, ten jobs with why, the Mac, the crates each command is given, the smoke test |
| CiScope.DecisionIsMonotone | scripts/ci_scope.py:129-274 | more paths never turn a job, the Mac or the smoke test off, nor leave out a crate tested, built or documented |
| CiScope.FullRuns | scripts/ci_scope.py:129-138 | a run is full if and only if one of the four causes holds, and then runs every job on the whole workspace |
| CiScope.InertRunsNothing | scripts/ci_scope.py:141-159 | a change of inert paths runs no job, each with a reason |
| CiScope.RustJobsFollowTheCrates | scripts/ci_scope.py:209-243 | each Rust job runs if and only if some crate is affected |
| ScopeRules.PathMeans | scripts/ci_scope.py:141-159 | what each path is: an app's, the innermost package's, one of the inert ones as listed, a script, an installer's, or unknown |
| ScopeRules.ChangedCodeIsTested | scripts/ci_scope.py:147-243 | in every run, a changed path tests and builds the package of the longest directory it is in, and runs the four Rust jobs |
| ScopeRules.ChangedAppIsTested | scripts/ci_scope.py:141-243 | the same for the two apps' folders and their packages |
| ScopeRules.OtherJobsMean | scripts/ci_scope.py:209-250 | in a run that is not full, when each of the other six jobs runs, by path prefix and crate |
| ScopeRules.MacMeans | scripts/ci_scope.py:251-256 | when a Mac is asked for |
| ScopeRules.ReasonMeans | scripts/ci_scope.py:129-206 | which reason a full run gives: no pull request, the label, the first path every test depends on, the first unknown |
| ScopeRules.ChangedMeans | scripts/ci_scope.py:185-206 | the changed crates are those the changed paths belong to |
| ScopeRules.PartialMeans | scripts/ci_scope.py:162-274 | a run that is not full tests and builds exactly the packages from which a chain of dependencies leads to a changed one, and documents those of them that are libraries |
| ScopeRules.GraphMeans | scripts/ci_scope.py:162-178 | of packages of one name the last counts |
| CiScope.SkipsHaveReasons | scripts/ci_scope.py:209-250 | every skip has a reason if and only if full, or no changed path is a crate's, or some changed path is a package's |
| CiScope.UnexplainedSkip | scripts/ci_scope.py:209-213 | in any workspace without its crate, a change of the iPhone app's folder skips the tests with an empty reason |
| CiScope.UnexplainedWorkspace | scripts/ci_scope.py:185-213 | one such workspace |
| CiScope.CheckNeeds | scripts/ci_scope.py:384-407 | the problems are exactly those of the jobs against the plan |
| CiScope.Verdict | scripts/ci_scope.py:384-407 | no problem if and only if green; then every job the plan said to run succeeded |
| CiScope.ObeyedIsGreen | scripts/ci_scope.py:384-407 | obeying a plan is green under exactly the same condition on the change and the packages |
| Progress.JsonString | crates/itsanas-cli/src/copy_to_key.rs:439-458 | the loop writes the quoted, escaped string |
| Progress.ReadJsonString | crates/itsanas-cli/src/copy_to_key.rs:544-566 | the loop reads what the specification does, refusals included |
| Progress.StringRoundTrip | crates/itsanas-cli/src/copy_to_key.rs:439-566 | a written string followed by any text reads back as both |
| Progress.EscapedHasNoControl | crates/itsanas-cli/src/copy_to_key.rs:439-458 | no control character is left bare |
| Progress.ProgressRoundTrip | crates/itsanas-cli/src/copy_to_key.rs:466-540 | the record written is the record read |
| Progress.ProgressSurvivesIffItFits | crates/itsanas-cli/src/copy_to_key.rs:502-540 | the file read back is the record when it fits 64 KiB but for its line end, and otherwise no record |
| Progress.LongRecordIsLost | crates/itsanas-cli/src/copy_to_key.rs:502-540 | one record that reads back as none |
| Progress.WrittenIsOneLine | crates/itsanas-cli/src/copy_to_key.rs:466-477 | the record is one line, whatever it says |
| Progress.EscapedSpells | crates/itsanas-cli/src/copy_to_key.rs:439-458 | each character is written in a way section 7 of RFC 8259 allows |
| Progress.StandardStringReads | crates/itsanas-cli/src/copy_to_key.rs:544-566 | a string written by anyone in those ways is read to its end, and as what it says if and only if the backspace and the form feed are not in their short forms |
| Progress.RecordIs | crates/itsanas-cli/src/copy_to_key.rs:466-477 | the line written, field by field |
| Sizes.ContentNeverUnderCounts | crates/itsanas-cli/src/copy_to_key.rs:262-284 | the size read back is at least the one shown and at most a tenth of its unit more |
| Sizes.AcceptedHasRoom | crates/itsanas-cli/src/copy_to_key.rs:218-284 | accepted on the content a status text shows, there is room for the programs and the real content, if and only if they fit in 64 bits |
| Sizes.AcceptedWithoutRoom | crates/itsanas-cli/src/copy_to_key.rs:218-256 | one drive accepted without it |
| Sizes.EnoughIsAccepted | crates/itsanas-cli/src/copy_to_key.rs:218-284 | on the same text, a drive with a tenth of the unit to spare is never refused |
| Sizes.ArgumentReadsBack | crates/itsanas-node/src/config.rs:809-895 | the argument reads back as the price rounded up by less than a unit, refused if and only if that leaves 64 bits |
| Sizes.FormattedMeans | crates/itsanas-node/src/config.rs:846-866 | bytes below 1 KiB; from there the largest unit that fits, to a tenth, rounded down |
| Sizes.RoomMeans | crates/itsanas-cli/src/copy_to_key.rs:218-256 | what is needed, 45 MiB for programs of unknown size, held to 64 bits, and the answer for every drive |
| Sizes.TypedMeans | crates/itsanas-node/src/config.rs:809-842 | for every text: it is so many bytes if and only if it is digits and a unit, in either case, at its power of 1024, within 64 bits |
| Bargain.PriceAndEarningsAreAdjoint | scripts/check-bargain.py:194-238 | a pledge covers the price if and only if its earnings cover the room |
| Bargain.AdjointInSixtyFourBits | crates/itsanas-coord/src/accounting.rs:111-137 | the same in 64 bits, with the exact condition |
| Bargain.LargestPledgeFallsShort | crates/itsanas-coord/src/accounting.rs:111-137 | the pair at which it fails, at 30/70 |
| Bargain.QuotedPriceBuysTheRoom | scripts/check-bargain.py:194-238 | pledging the quoted argument earns the room for less than a unit more |
| Bargain.GrantsNoMoreMeansEarnsNoMore | crates/itsanas-coord/src/accounting.rs:146-149 | the cross-multiplied comparison holds if and only if no pledge earns more |
| Bargain.RoomIsTheMost | crates/itsanas-coord/src/accounting.rs:111-137 | the room earned is the largest number that, at the split, costs no more than the pledge |
| Bargain.PriceIsTheLeast | crates/itsanas-coord/src/accounting.rs:111-137 | the price is the least pledge that pays for the room, and the largest number when none does |
| Withdrawals.PrintedIdReads | crates/itsanas-crypto/src/ids.rs:10-37 | a printed id is one line that reads back |
| Withdrawals.MarkerReadsBack | crates/itsanas-cli/src/account.rs:336-369 | the marker's lines are the devices it was written for |
| Withdrawals.RememberAdds | crates/itsanas-cli/src/account.rs:336-344 | remembering adds one device and keeps the others, unless the marker cannot be read or written |
| Withdrawals.WithdrawDropsTheAnswered | crates/itsanas-cli/src/account.rs:349-369 | an open that reaches the marker drops exactly the lines answered |
| Withdrawals.FirstFree | crates/itsanas-cli/src/account.rs:288-301 | the stamp loop ends, on the first stamp from now on whose name is free |
| Withdrawals.Phone.SetAside | crates/itsanas-cli/src/account.rs:288-301 | the home under the first free name, or where it was, and nothing else moved |
| Withdrawals.Phone.RememberToWithdraw | crates/itsanas-cli/src/account.rs:336-344 | the marker with the device's line; one that cannot be read is written over, one that cannot be written stays |
| Withdrawals.Phone.WithdrawPending | crates/itsanas-cli/src/account.rs:349-369 | the marker without the lines answered, line by line |
| Withdrawals.Phone.SweepRemoved | crates/itsanas-cli/src/account.rs:312-325 | a name goes if and only if it is an old home's, was listed and the disk let it; the home, the marker and every other name stay as they were |
| Withdrawals.Phone.Open | crates/itsanas-cli/src/phone.rs:34-55 | an open is the step specified; an open node is left alone |
| Withdrawals.Phone.LogoutInto | crates/itsanas-cli/src/account.rs:230-255 | a logout is the step specified, with its answer in every case |
| Withdrawals.CleanOpenLeavesOneNode | crates/itsanas-cli/src/account.rs:288-325 | after any run, an open in which the disk lets every old home go leaves no node's keys but the home's |
| Withdrawals.MarkerIsTheWaiting | crates/itsanas-cli/src/account.rs:336-369 | in every run the marker is the text of the devices waiting |
| Withdrawals.SlotsAreConserved | crates/itsanas-cli/src/account.rs:230-369 | over every run, untold departures of a device are its lines waiting, plus its lines answered, plus the slots the disk lost |
| Withdrawals.ForgottenIffLost | crates/itsanas-cli/src/account.rs:336-344 | a slot is lost if and only if some untold logout could not write the marker, or could not read one that was there |
| Withdrawals.SlotLostUnwritten | crates/itsanas-cli/src/account.rs:336-344 | one run that loses the slot of the device leaving |
| Withdrawals.SlotLostUnread | crates/itsanas-cli/src/account.rs:336-344 | one run that loses the slot of a device listed before |
| Withdrawals.NoSlotIsForgotten | crates/itsanas-cli/src/account.rs:230-369 | a device that left untold waits until a line of its own is answered, the disk losing nothing |
| Withdrawals.WaitingLeftUntold | crates/itsanas-cli/src/account.rs:230-255 | nothing waits that did not leave untold |
| Withdrawals.WaitsExactlyOnce | crates/itsanas-cli/src/account.rs:230-369 | a device that left untold at most once waits if and only if that departure was neither answered nor lost |
| Withdrawals.AnsweredAndStillWaiting | crates/itsanas-cli/src/account.rs:349-369 | a device listed twice, answered about once, that waits still |
| Withdrawals.AsksAboutItselfWhenItStayed | crates/itsanas-cli/src/account.rs:230-255 | a device asks for its own withdrawal if and only if an untold logout that kept its home is followed by an open of that home that reads the marker |
| Withdrawals.StayedDeviceAsks | crates/itsanas-cli/src/account.rs:230-255 | one such run |
| Logouts.LogoutMeans | crates/itsanas-cli/src/account.rs:230-307 | name by name: renamed, there is no home, and the old one stands under its new name if and only if the delete failed; the marker gains the device's line if the coordinator was not told; nothing else changes |
| Logouts.OpenMeans | crates/itsanas-cli/src/account.rs:312-369 | name by name: the old homes the disk lets go are gone; the marker keeps, in order, exactly the lines that are a device's and were not answered; nothing else changes |
| Logouts.NothingHappens | crates/itsanas-cli/src/account.rs:230-243 | what a logout, an open or a restore does when there is nothing for it to do |
| Logouts.OldHomesMean | crates/itsanas-cli/src/account.rs:288-325 | after any run, an old home is on the disk if and only if a logout could not delete it and nothing let it go since |
| Logouts.HexMeans | crates/itsanas-crypto/src/ids.rs:10-37 | an id is printed byte by byte, high half first, in lower case |
| Logouts.DeviceMeans | crates/itsanas-crypto/src/ids.rs:10-37 | a text is an id if and only if it is 64 hexadecimal digits, in either case |
| Pages.NumbersIncrease | crates/itsanas-android/src/lib.rs:397-437 | page numbers are distinct and increase, under every interleaving |
| Pages.AtMostOneCurrent | crates/itsanas-android/src/lib.rs:366-437 | at most one page is current |
| Pages.ClosedIsSaidOnlyByTheCurrent | crates/itsanas-android/src/lib.rs:397-445 | a page says `closed` if and only if nothing was stopped or started between its number and its last look |
| Pages.ClosedAtMostOnce | crates/itsanas-android/src/lib.rs:422-433 | each page looks, and says it, at most once |
| Pages.AskedOnlyWhileCurrent | crates/itsanas-android/src/host.rs:141-161 | an engine's question is put if and only if nothing was stopped or started since its page's number |
| Pages.RefusedForEver | crates/itsanas-android/src/host.rs:151-161 | an engine refused once is refused for ever |
| Pages.OutOfReachIffOverwritten | crates/itsanas-android/src/lib.rs:368-445 | a page that neither the slot nor a call about to tell it can stop is exactly one another's stop was put over |
| Pages.NoneOutOfReachOneAtATime | crates/itsanas-android/src/lib.rs:397-445 | with calls one at a time there is none |
| Pages.TwoStartsLeaveOneOutOfReach | crates/itsanas-android/src/lib.rs:397-437 | two starts at once that leave one, its thread serving it and no call under way |
| PageHistory.TheRuns | crates/itsanas-android/src/lib.rs:366-445 | the runs are exactly those in which each event may follow, said of the events alone: the steps of a call in order, the number one past the moves of the counter, the look of a thread and the question of an engine |
| PageHistory.TheSlot | crates/itsanas-android/src/lib.rs:366-445 | the slot holds the page last put there and not taken since; the counter is the number of its moves |
| PageHistory.StoppedWasTold | crates/itsanas-android/src/lib.rs:439-445 | a page has been told to stop if and only if some call told the one it had taken out of the slot |
| Pages.Library.StopPage | crates/itsanas-android/src/lib.rs:439-445 | the counter moves, the slot is emptied, and then the page that was in it is told to stop |
| Pages.Library.Publish | crates/itsanas-android/src/lib.rs:418-436 | the stop put in the slot, then the thread, if it can be |
| Pages.Library.Serve | crates/itsanas-android/src/lib.rs:405-437 | a number, the slot and the thread, as far as each step succeeds |
| Pages.Library.StartPage | crates/itsanas-android/src/lib.rs:397-437 | an unknown mode changes nothing; any other start stops the page before it, even when it fails |
| Pages.Library.PageEnds | crates/itsanas-android/src/lib.rs:422-433 | the end of a thread, as two steps of the protocol |
| Pages.Library.Screens | crates/itsanas-android/src/host.rs:146-161 | an engine may ask if and only if it has no page or its page is current |

## Left out

- Progress.StandardStringReads: the characters past U+FFFF are taken as written by themselves; a pair of numbers for one is not modelled.
- FileTree.LevelAt: the lower-casing is a parameter, any function of a text.
- CiScope.Decide: what a command is given is a set of crates, not the joined text of it, and a reason is a tag, the empty one its own; neither wording is modelled.
- ControlFile.Read: replacing the file on writing is one atomic step and not modelled.
- Pages.ClosedIsSaidOnlyByTheCurrent: the counter is unbounded; a wrap after 2^64 starts is not modelled, nor a lock poisoned by a panic.
- Withdrawals.Phone.RememberToWithdraw: a write that fails leaves the marker as it was; one cut short half way is not modelled.
- Withdrawals.Phone.WithdrawPending: the rewrite of the kept lines is whole or not at all, likewise.
- Withdrawals.SlotsAreConserved: a write of the marker that fails leaves it as it was, and nothing stops between the steps of one logout or open; deleting the account is not modelled.
- The wording of log lines and sentences: each is a tag with its numbers.
- `dial_book`, `one_round` and what a round does: only that one was answered, and when it ended.
- Sockets, TLS, port mapping, beacons, the store, the vault, placement and policy: their answers are parameters.
- Cryptography, passphrases and recovery words.
- The trays, the phone apps' screens, the MCP server, the installers and the other check scripts.
- Overflow of an `Instant` by adding a duration.
