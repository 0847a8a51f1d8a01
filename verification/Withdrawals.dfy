/** What a logout could not withdraw: the marker file beside a phone's home, and
    the home itself, from `crates/itsanas-cli/src/account.rs`. */
module Withdrawals {
  import opened Text
  import opened Utf8

  const HOME := "node"
  const MARKER := "withdraw-after-login"
  const REMOVING_PREFIX := "node.removing-"

  /** 32 bytes. */
  type DeviceId = s: seq<byte> | |s| == 32 witness seq(32, i => 0)

  // -------------------------------------------------------- device ids

  function HexByte(b: byte): string {
    [HexDigit(b / 16), HexDigit(b % 16)]
  }

  function HexOf(bytes: seq<byte>): string {
    if bytes == [] then "" else HexByte(bytes[0]) + HexOf(bytes[1..])
  }

  /** Pairs of hexadecimal digits, as bytes. */
  function BytesOf(s: string): Option<seq<byte>> {
    if s == [] then Some([])
    else if |s| == 1 then None
    else
      match (HexValue(s[0]), HexValue(s[1]), BytesOf(s[2..]))
      case (Some(high), Some(low), Some(rest)) => Some([16 * high + low] + rest)
      case _ => None
  }

  lemma {:induction false} BytesLength(s: string)
    ensures BytesOf(s).Some? ==> 2 * |BytesOf(s).value| == |s|
  {
    if |s| > 1 {
      BytesLength(s[2..]);
    }
  }

  /** `DeviceId::from_str`: 64 digits, either case. */
  function ParseDevice(s: string): Option<DeviceId> {
    if |s| != 64 then None
    else
      BytesLength(s);
      match BytesOf(s)
      case None => None
      case Some(bytes) => Some(bytes)
  }

  lemma {:induction false} BytesOfHex(bytes: seq<byte>)
    ensures |HexOf(bytes)| == 2 * |bytes| && BytesOf(HexOf(bytes)) == Some(bytes)
    ensures forall i :: 0 <= i < |HexOf(bytes)| ==> HexValue(HexOf(bytes)[i]).Some?
  {
    if bytes != [] {
      BytesOfHex(bytes[1..]);
      var s := HexOf(bytes);
      assert s[2..] == HexOf(bytes[1..]);
      assert [bytes[0]] + bytes[1..] == bytes;
    }
  }

  /** A printed id is a line of its own that reads back as that id. */
  lemma PrintedIdReads(d: DeviceId)
    ensures ParseDevice(Trim(HexOf(d))) == Some(d) && HexOf(d) != []
    ensures '\n' !in HexOf(d) && HexOf(d)[|HexOf(d)| - 1] != '\r'
  {
    BytesOfHex(d);
    var s := HexOf(d);
    assert HexValue(s[0]).Some? && HexValue(s[63]).Some?;
    TrimPadded("", s);
    assert "" + s == s;
    forall i | 0 <= i < |s| ensures s[i] != '\n' {
      assert HexValue(s[i]).Some?;
    }
  }

  // -------------------------------------------------------- the marker

  /** Lines, each with its end. */
  function Joined(lines: seq<string>): string {
    if lines == [] then "" else Joined(lines[..|lines| - 1]) + lines[|lines| - 1] + "\n"
  }

  function HexLines(ds: seq<DeviceId>): seq<string> {
    seq(|ds|, i requires 0 <= i < |ds| => HexOf(ds[i]))
  }

  /** The marker file for these devices: none at all when there are none. */
  function MarkerOf(ds: seq<DeviceId>): Option<string> {
    if ds == [] then None else Some(Joined(HexLines(ds)))
  }

  /** Whether the disk let the marker be read, and be written or removed. */
  datatype Access = Access(read: bool, write: bool)

  const GRANTED := Access(true, true)

  /** Whether a line is kept: an id the coordinator did not answer about. */
  predicate KeepsLine(line: string, answered: bool) {
    ParseDevice(Trim(line)).Some? && !answered
  }

  /** The lines left when these ones, by index, were answered: each line is a
      question of its own. */
  function KeptLines(lines: seq<string>, answered: set<nat>): seq<string> {
    if lines == [] then []
    else
      var n := |lines| - 1;
      KeptLines(lines[..n], answered) + if KeepsLine(lines[n], n in answered) then [lines[n]] else []
  }

  function Kept(ds: seq<DeviceId>, answered: set<nat>): seq<DeviceId> {
    if ds == [] then []
    else
      var n := |ds| - 1;
      Kept(ds[..n], answered) + if n in answered then [] else [ds[n]]
  }

  /** The marker once the device was added: a marker that cannot be read is
      written over, one that cannot be written stays. */
  function Remembered(marker: Option<string>, d: DeviceId, disk: Access): Option<string> {
    if !disk.write then marker
    else Some((if marker.Some? && disk.read then marker.value else "") + HexOf(d) + "\n")
  }

  /** The devices that marker is for. */
  function WithOneMore(ds: seq<DeviceId>, d: DeviceId, disk: Access): seq<DeviceId> {
    if !disk.write then ds else (if disk.read then ds else []) + [d]
  }

  /** The marker after an open in which these lines were answered. */
  function Withdrawn(marker: Option<string>, answered: set<nat>, disk: Access): Option<string> {
    if marker.None? || disk != GRANTED then marker
    else
      var kept := KeptLines(Lines(marker.value), answered);
      if kept == [] then None else Some(Joined(kept))
  }

  lemma HexLinesOneMore(ds: seq<DeviceId>, d: DeviceId)
    ensures HexLines(ds + [d]) == HexLines(ds) + [HexOf(d)]
  {
  }

  lemma JoinedOneMore(lines: seq<string>, line: string)
    ensures Joined(lines + [line]) == Joined(lines) + line + "\n"
  {
    assert (lines + [line])[..|lines + [line]| - 1] == lines;
  }

  predicate PlainLine(line: string) {
    '\n' !in line && (line == [] || line[|line| - 1] != '\r')
  }

  lemma {:induction false} LinesOfJoined(lines: seq<string>)
    requires forall i :: 0 <= i < |lines| ==> PlainLine(lines[i])
    ensures Lines(Joined(lines)) == lines && WholeLines(Joined(lines))
  {
    if lines != [] {
      var before, last := lines[..|lines| - 1], lines[|lines| - 1];
      LinesOfJoined(before);
      LinesOfLast(Joined(before), last);
      assert Joined(lines) == Joined(before) + last + "\n";
    }
  }

  lemma LinesOfLast(text: string, line: string)
    requires WholeLines(text) && PlainLine(line)
    ensures Lines(text + line + "\n") == Lines(text) + [line]
  {
    AppendAssociates(text, line, "\n");
    LinesSplit(text, line + "\n");
    LinesOfOne(line, "");
    assert line + "\n" + "" == line + "\n" && Lines("") == [];
  }

  lemma HexLinesArePlain(ds: seq<DeviceId>)
    ensures forall i :: 0 <= i < |HexLines(ds)| ==> PlainLine(HexLines(ds)[i])
  {
    forall i | 0 <= i < |ds| ensures PlainLine(HexLines(ds)[i]) {
      PrintedIdReads(ds[i]);
    }
  }

  /** The file prints and parses alike: its lines are the devices it was written
      for, in order. */
  lemma MarkerReadsBack(ds: seq<DeviceId>)
    requires ds != []
    ensures Lines(MarkerOf(ds).value) == HexLines(ds)
    ensures forall i :: 0 <= i < |ds| ==> ParseDevice(Trim(Lines(MarkerOf(ds).value)[i])) == Some(ds[i])
  {
    HexLinesArePlain(ds);
    LinesOfJoined(HexLines(ds));
    forall i | 0 <= i < |ds| ensures ParseDevice(Trim(HexLines(ds)[i])) == Some(ds[i]) {
      PrintedIdReads(ds[i]);
    }
  }

  /** Remembering adds one device and keeps every other, as the disk allows. */
  lemma RememberAdds(ds: seq<DeviceId>, d: DeviceId, disk: Access)
    ensures Remembered(MarkerOf(ds), d, disk) == MarkerOf(WithOneMore(ds, d, disk))
  {
    var kept := if disk.read then ds else [];
    HexLinesOneMore(kept, d);
    JoinedOneMore(HexLines(kept), HexOf(d));
    if kept == [] {
      assert HexLines(kept) == [];
    }
  }

  lemma {:induction false} KeptLinesOfHex(ds: seq<DeviceId>, answered: set<nat>)
    ensures KeptLines(HexLines(ds), answered) == HexLines(Kept(ds, answered))
  {
    if ds == [] {
      assert HexLines(ds) == [] && HexLines([]) == [];
    } else {
      var before, d := ds[..|ds| - 1], ds[|ds| - 1];
      KeptLinesOfHex(before, answered);
      assert ds == before + [d];
      HexLinesOneMore(before, d);
      HexLinesOneMore(Kept(before, answered), d);
      PrintedIdReads(d);
      assert HexLines(ds)[..|HexLines(ds)| - 1] == HexLines(before);
    }
  }

  /** An open that reaches the marker drops exactly the lines answered. */
  lemma WithdrawDropsTheAnswered(ds: seq<DeviceId>, answered: set<nat>, disk: Access)
    ensures Withdrawn(MarkerOf(ds), answered, disk) == MarkerOf(if disk == GRANTED then Kept(ds, answered) else ds)
  {
    if ds != [] {
      MarkerReadsBack(ds);
      KeptLinesOfHex(ds, answered);
      assert |HexLines(Kept(ds, answered))| == |Kept(ds, answered)|;
    }
  }

  // ----------------------------------------------------- the directory

  /** What a name beside the home stands for. A home set aside is a node still,
      keys and all. */
  datatype Item = Node(device: DeviceId) | Text(text: string) | Other

  type Directory = map<string, Item>

  function HomeIn(dir: Directory): Option<DeviceId> {
    if HOME in dir && dir[HOME].Node? then Some(dir[HOME].device) else None
  }

  function MarkerIn(dir: Directory): Option<string> {
    if MARKER in dir && dir[MARKER].Text? then Some(dir[MARKER].text) else None
  }

  function WithMarker(dir: Directory, marker: Option<string>): Directory {
    if marker == MarkerIn(dir) then dir
    else if marker.Some? then dir[MARKER := Text(marker.value)]
    else dir - {MARKER}
  }

  /** The name an erase gives the home. */
  function RemovingName(stamp: nat): string {
    REMOVING_PREFIX + Decimal(stamp)
  }

  predicate Removing(name: string) {
    REMOVING_PREFIX <= name
  }

  /** The home under another name, if it was renamed. */
  function MovedAside(dir: Directory, stamp: nat): Directory
    requires HOME in dir
  {
    (dir - {HOME})[RemovingName(stamp) := dir[HOME]]
  }

  function Swept(dir: Directory, gone: set<string>): Directory {
    map name | name in dir && !(Removing(name) && name in gone) :: dir[name]
  }

  /** Neither the home nor the marker is named as an old home is. */
  lemma NamesApart()
    ensures !Removing(HOME) && !Removing(MARKER) && HOME != MARKER
  {
    assert HOME[0] == 'n' && MARKER[0] == 'w' && REMOVING_PREFIX[0] == 'n';
  }

  /** The first stamp from `now` on that names nothing. */
  predicate FreeStamp(dir: Directory, now: nat, stamp: nat) {
    now <= stamp && RemovingName(stamp) !in dir && AllTaken(dir.Keys, now, stamp)
  }

  lemma RemovingNameInjective(a: nat, b: nat)
    requires RemovingName(a) == RemovingName(b)
    ensures a == b
  {
    CancelFront(REMOVING_PREFIX, REMOVING_PREFIX, Decimal(a), Decimal(b));
    DecimalInjective(a, b);
  }

  predicate AllTaken(names: set<string>, now: nat, stamp: nat) {
    forall k :: now <= k < stamp ==> RemovingName(k) in names
  }

  /** Each stamp taken is a name of its own. */
  lemma {:induction false} AsManyNames(names: set<string>, now: nat, stamp: nat)
    requires now <= stamp && AllTaken(names, now, stamp)
    ensures stamp - now <= |names|
    decreases stamp
  {
    if now < stamp {
      var last := RemovingName(stamp - 1);
      forall k | now <= k < stamp - 1 ensures RemovingName(k) in names - {last} {
        if RemovingName(k) == last {
          RemovingNameInjective(k, stamp - 1);
        }
      }
      AsManyNames(names - {last}, now, stamp - 1);
    }
  }

  /** The loop of `set_aside` on the stamp. */
  method FirstFree(dir: Directory, now: nat) returns (stamp: nat)
    ensures FreeStamp(dir, now, stamp)
  {
    stamp := now;
    while RemovingName(stamp) in dir
      invariant now <= stamp && AllTaken(dir.Keys, now, stamp)
      decreases |dir.Keys| - (stamp - now)
    {
      assert AllTaken(dir.Keys, now, stamp + 1);
      AsManyNames(dir.Keys, now, stamp + 1);
      stamp := stamp + 1;
    }
  }

  // --------------------------------------------------------- the phone

  datatype State = State(dir: Directory, open: bool)

  datatype LogoutAnswer = LoggedOut | Closed | NotRemoved

  class Phone {
    var dir: Directory
    var open: bool

    ghost function View(): State
      reads this
    {
      State(dir, open)
    }

    constructor ()
      ensures View() == FIRST
    {
      dir, open := map[], false;
    }

    /** `set_aside`: the home renamed to the first free name; `renamed` is whether
        the disk let it. */
    method SetAside(now: nat, renamed: bool) returns (stamp: nat)
      modifies this`dir
      ensures FreeStamp(old(dir), now, stamp)
      ensures dir == Erased(old(dir), renamed, false, stamp)
    {
      stamp := FirstFree(dir, now);
      if renamed && HOME in dir {
        dir := (dir - {HOME})[RemovingName(stamp) := dir[HOME]];
      }
    }

    /** `remember_to_withdraw`. */
    method RememberToWithdraw(device: DeviceId, disk: Access)
      modifies this`dir
      ensures dir == WithMarker(old(dir), Remembered(MarkerIn(old(dir)), device, disk))
    {
      var marker := MarkerIn(dir);
      var text := if marker.Some? && disk.read then marker.value else "";
      text := text + HexOf(device);
      text := text + "\n";
      if disk.write {
        dir := WithMarker(dir, Some(text));
      }
    }

    /** `withdraw_pending`, with the lines, by index, the coordinator answered. */
    method WithdrawPending(answered: set<nat>, disk: Access)
      modifies this`dir
      ensures dir == WithMarker(old(dir), Withdrawn(MarkerIn(old(dir)), answered, disk))
    {
      var marker := MarkerIn(dir);
      if marker.None? || !disk.read {
        return;
      }
      var lines, kept: seq<string> := Lines(marker.value), [];
      for i := 0 to |lines|
        invariant dir == old(dir) && kept == KeptLines(lines[..i], answered)
      {
        assert lines[..i + 1][..|lines[..i + 1]| - 1] == lines[..i];
        if KeepsLine(lines[i], i in answered) {
          kept := kept + [lines[i]];
        }
      }
      assert lines[..|lines|] == lines;
      if disk.write {
        dir := WithMarker(dir, if kept == [] then None else Some(Joined(kept)));
      }
    }

    /** `sweep_removed`: over the names listed, the old homes the disk lets go.
        Whatever else stands beside the home, the home and the marker with it, is
        left as it was. */
    method SweepRemoved(listing: seq<string>, lets: set<string>)
      modifies this`dir
      ensures forall name :: name in dir <==> name in old(dir) && !(Removing(name) && name in listing && name in lets)
      ensures forall name :: name in dir ==> dir[name] == old(dir)[name]
      ensures HomeIn(dir) == HomeIn(old(dir)) && MarkerIn(dir) == MarkerIn(old(dir))
      ensures dir == Swept(old(dir), set name | name in listing && name in lets)
    {
      for i := 0 to |listing|
        invariant forall name :: name in dir <==>
                    name in old(dir) && !(Removing(name) && name in listing[..i] && name in lets)
        invariant forall name :: name in dir ==> dir[name] == old(dir)[name]
      {
        assert listing[..i + 1] == listing[..i] + [listing[i]];
        if Removing(listing[i]) && listing[i] in lets {
          dir := dir - {listing[i]};
        }
      }
      assert listing[..|listing|] == listing;
      NamesApart();
    }

    /** `open_into`, then `after_open`; an open node is left alone. */
    method Open(listing: seq<string>, lets: set<string>, answered: set<nat>, disk: Access)
      modifies this
      ensures View() == Step(old(View()), Opened((set name | name in listing && name in lets), answered, disk))
    {
      if HomeIn(dir).None? || open {
        return;
      }
      SweepRemoved(listing, lets);
      WithdrawPending(answered, disk);
      open := true;
    }

    /** `logout_into`: `withdrawn` is whether the coordinator was told, `disk`
        whether the marker could be read and written, `renamed` and `deleted` what
        the disk let the erase do. */
    method LogoutInto(now: nat, withdrawn: bool, disk: Access, renamed: bool, deleted: bool)
      returns (answer: LogoutAnswer, ghost stamp: nat)
      modifies this
      ensures View() == Step(old(View()), Logout(withdrawn, disk, renamed, deleted, stamp))
      ensures answer == if !Leaves(old(View()), Logout(withdrawn, disk, renamed, deleted, stamp)) then Closed
                        else if renamed then LoggedOut else NotRemoved
      ensures answer != Closed ==> FreeStamp(Told(old(dir), withdrawn, disk), now, stamp)
    {
      stamp := now;
      if HomeIn(dir).None? || !open {
        return Closed, stamp;
      }
      open := false;
      if !withdrawn {
        RememberToWithdraw(HomeIn(dir).value, disk);
      }
      NamesApart();
      var name := SetAside(now, renamed);
      stamp := name;
      if !renamed {
        return NotRemoved, stamp;
      }
      if deleted {
        dir := dir - {RemovingName(name)};
      }
      answer := LoggedOut;
    }
  }

  // -------------------------------------------------------------- runs

  /** What happens to a phone: an account restored as a new device, the app
      closed, the home opened, a logout. An open comes with the old homes the disk
      let go and the lines answered; a logout with the stamp its erase found. */
  datatype Event =
    | Restored(device: DeviceId)
    | AppClosed
    | Opened(gone: set<string>, answered: set<nat>, disk: Access)
    | Logout(withdrawn: bool, disk: Access, renamed: bool, deleted: bool, stamp: nat)

  predicate Opens(s: State, e: Event) {
    e.Opened? && HomeIn(s.dir).Some? && !s.open
  }

  predicate Leaves(s: State, e: Event) {
    e.Logout? && HomeIn(s.dir).Some? && s.open
  }

  /** The directory once a logout has written what it has to remember. */
  function Told(dir: Directory, withdrawn: bool, disk: Access): Directory {
    if withdrawn || HomeIn(dir).None? then dir
    else WithMarker(dir, Remembered(MarkerIn(dir), HomeIn(dir).value, disk))
  }

  function Erased(dir: Directory, renamed: bool, deleted: bool, stamp: nat): Directory {
    if !renamed || HOME !in dir then dir
    else if deleted then MovedAside(dir, stamp) - {RemovingName(stamp)}
    else MovedAside(dir, stamp)
  }

  function Step(s: State, e: Event): State {
    match e
    case Restored(device) => if HOME in s.dir then s else s.(dir := s.dir[HOME := Node(device)])
    case AppClosed => s.(open := false)
    case Opened(gone, answered, disk) =>
      if !Opens(s, e) then s
      else
        var dir := Swept(s.dir, gone);
        State(WithMarker(dir, Withdrawn(MarkerIn(dir), answered, disk)), true)
    case Logout(withdrawn, disk, renamed, deleted, stamp) =>
      if !Leaves(s, e) then s else State(Erased(Told(s.dir, withdrawn, disk), renamed, deleted, stamp), false)
  }

  const FIRST := State(map[], false)

  function Run(es: seq<Event>): State {
    if es == [] then FIRST else Step(Run(es[..|es| - 1]), es[|es| - 1])
  }

  /** The device at home after these events, if there is one. */
  function HomeAfter(es: seq<Event>): Option<DeviceId> {
    HomeIn(Run(es).dir)
  }

  lemma MarkerWritten(dir: Directory, marker: Option<string>)
    ensures HomeIn(WithMarker(dir, marker)) == HomeIn(dir) && MarkerIn(WithMarker(dir, marker)) == marker
  {
    NamesApart();
  }

  lemma SweptKeeps(dir: Directory, gone: set<string>)
    ensures HomeIn(Swept(dir, gone)) == HomeIn(dir) && MarkerIn(Swept(dir, gone)) == MarkerIn(dir)
  {
    NamesApart();
  }

  lemma ErasedKeeps(dir: Directory, renamed: bool, deleted: bool, stamp: nat)
    ensures HomeIn(Erased(dir, renamed, deleted, stamp)) == if renamed then None else HomeIn(dir)
    ensures MarkerIn(Erased(dir, renamed, deleted, stamp)) == MarkerIn(dir)
  {
    NamesApart();
    assert Removing(RemovingName(stamp));
  }

  /** What one event makes of the home, the marker and whether it is open. */
  lemma StepShown(s: State, e: Event)
    ensures var t := Step(s, e);
            HomeIn(t.dir) == (if e.Restored? && HOME !in s.dir then Some(e.device)
                              else if Leaves(s, e) && e.renamed then None
                              else HomeIn(s.dir))
            && MarkerIn(t.dir) == (if Opens(s, e) then Withdrawn(MarkerIn(s.dir), e.answered, e.disk)
                                   else if Leaves(s, e) && !e.withdrawn
                                   then Remembered(MarkerIn(s.dir), HomeIn(s.dir).value, e.disk)
                                   else MarkerIn(s.dir))
            && t.open == (if e.AppClosed? || Leaves(s, e) then false else s.open || Opens(s, e))
  {
    NamesApart();
    match e {
      case Restored(_) =>
      case AppClosed =>
      case Opened(gone, answered, disk) =>
        SweptKeeps(s.dir, gone);
        MarkerWritten(Swept(s.dir, gone), Withdrawn(MarkerIn(s.dir), answered, disk));
      case Logout(withdrawn, disk, renamed, deleted, stamp) =>
        ErasedKeeps(Told(s.dir, withdrawn, disk), renamed, deleted, stamp);
        if HomeIn(s.dir).Some? {
          MarkerWritten(s.dir, Remembered(MarkerIn(s.dir), HomeIn(s.dir).value, disk));
        }
    }
  }

  // ----------------------------------------------- where the keys are

  /** Nodes stand at home or under an old home's name, and home holds a node. */
  predicate NodesInPlace(dir: Directory) {
    (forall name :: name in dir && dir[name].Node? ==> name == HOME || Removing(name))
    && (HOME in dir ==> dir[HOME].Node?)
  }

  lemma {:induction false} NodesStayInPlace(es: seq<Event>)
    ensures NodesInPlace(Run(es).dir)
  {
    if es != [] {
      var s, e := Run(es[..|es| - 1]), es[|es| - 1];
      NodesStayInPlace(es[..|es| - 1]);
      NamesApart();
      if e.Logout? {
        assert Removing(RemovingName(e.stamp));
      }
    }
  }

  /** After any run, an open in which the disk let every old home go leaves no
      node's keys anywhere but at home. */
  lemma CleanOpenLeavesOneNode(es: seq<Event>, e: Event, name: string)
    requires Opens(Run(es), e) && forall n :: n in Run(es).dir && Removing(n) ==> n in e.gone
    ensures var dir := Run(es + [e]).dir;
            name in dir && dir[name].Node? ==> name == HOME && Some(dir[name].device) == HomeAfter(es)
  {
    assert (es + [e])[..|es + [e]| - 1] == es;
    NodesStayInPlace(es);
    SweptKeeps(Run(es).dir, e.gone);
    StepShown(Run(es), e);
  }

  // ------------------------------------------------ the devices waiting

  /** The devices waiting, from the events alone. */
  function Waiting(es: seq<Event>): seq<DeviceId> {
    if es == [] then []
    else
      var before, e := es[..|es| - 1], es[|es| - 1];
      if Leaves(Run(before), e) && !e.withdrawn then WithOneMore(Waiting(before), HomeAfter(before).value, e.disk)
      else if Opens(Run(before), e) && e.disk == GRANTED then Kept(Waiting(before), e.answered)
      else Waiting(before)
  }

  /** In every run the marker's text is that of the devices waiting. */
  lemma {:induction false} MarkerIsTheWaiting(es: seq<Event>)
    ensures MarkerIn(Run(es).dir) == MarkerOf(Waiting(es))
  {
    if es != [] {
      var before, e := es[..|es| - 1], es[|es| - 1];
      MarkerIsTheWaiting(before);
      StepShown(Run(before), e);
      if Leaves(Run(before), e) {
        RememberAdds(Waiting(before), HomeAfter(before).value, e.disk);
      } else if Opens(Run(before), e) {
        WithdrawDropsTheAnswered(Waiting(before), e.answered, e.disk);
      }
    }
  }

  function Copies(ds: seq<DeviceId>, d: DeviceId): nat {
    multiset(ds)[d]
  }

  /** How many of these lines, by index, are the device's. */
  function AnsweredCopies(ds: seq<DeviceId>, answered: set<nat>, d: DeviceId): nat {
    if ds == [] then 0
    else
      var n := |ds| - 1;
      AnsweredCopies(ds[..n], answered, d) + if n in answered && ds[n] == d then 1 else 0
  }

  lemma {:induction false} KeptCopies(ds: seq<DeviceId>, answered: set<nat>, d: DeviceId)
    ensures Copies(ds, d) == Copies(Kept(ds, answered), d) + AnsweredCopies(ds, answered, d)
  {
    if ds != [] {
      hide Copies, Kept, AnsweredCopies;
      var before, last := ds[..|ds| - 1], ds[|ds| - 1];
      assert ds == before + [last];
      KeptCopies(before, answered, d);
      CopiesAnswered(ds, answered, d);
      KeptLast(ds, answered);
      OneMoreCopy(before, last, d);
      OneMoreCopy(Kept(before, answered), last, d);
    } else {
      assert Kept(ds, answered) == ds;
    }
  }

  lemma KeptLast(ds: seq<DeviceId>, answered: set<nat>)
    requires ds != []
    ensures var before := Kept(ds[..|ds| - 1], answered);
            Kept(ds, answered) == if |ds| - 1 in answered then before else before + [ds[|ds| - 1]]
  {
  }

  lemma OneMoreCopy(ds: seq<DeviceId>, x: DeviceId, d: DeviceId)
    ensures Copies(ds + [x], d) == Copies(ds, d) + if x == d then 1 else 0
  {
  }

  // ------------------------------------------------- the books of a slot

  /** Whether this event is the device leaving with its withdrawal unsent. */
  predicate LeftUntold(before: seq<Event>, e: Event, d: DeviceId) {
    Leaves(Run(before), e) && !e.withdrawn && HomeAfter(before) == Some(d)
  }

  /** How often the device left untold. */
  function Departures(es: seq<Event>, d: DeviceId): nat {
    if es == [] then 0
    else Departures(es[..|es| - 1], d) + if LeftUntold(es[..|es| - 1], es[|es| - 1], d) then 1 else 0
  }

  /** The lines of the device this event struck off because they were answered. */
  function StruckOff(before: seq<Event>, e: Event, d: DeviceId): nat {
    if Opens(Run(before), e) && e.disk == GRANTED then AnsweredCopies(Waiting(before), e.answered, d) else 0
  }

  function Answered(es: seq<Event>, d: DeviceId): nat {
    if es == [] then 0 else Answered(es[..|es| - 1], d) + StruckOff(es[..|es| - 1], es[|es| - 1], d)
  }

  /** The slots of the device this event forgets: its own, when the marker cannot
      be written; those already listed, when it cannot be read. */
  function Forgets(before: seq<Event>, e: Event, d: DeviceId): nat {
    if !Leaves(Run(before), e) || e.withdrawn then 0
    else if !e.disk.write then if HomeAfter(before) == Some(d) then 1 else 0
    else if !e.disk.read then Copies(Waiting(before), d)
    else 0
  }

  function Forgotten(es: seq<Event>, d: DeviceId): nat {
    if es == [] then 0 else Forgotten(es[..|es| - 1], d) + Forgets(es[..|es| - 1], es[|es| - 1], d)
  }

  /** The books balance, over every run and for every device: each time it left
      untold is a line waiting, a line that was answered, or a slot the disk lost. */
  lemma {:induction false} SlotsAreConserved(es: seq<Event>, d: DeviceId)
    ensures Departures(es, d) == Copies(Waiting(es), d) + Answered(es, d) + Forgotten(es, d)
  {
    if es != [] {
      var before, e := es[..|es| - 1], es[|es| - 1];
      SlotsAreConserved(before, d);
      if Opens(Run(before), e) {
        KeptCopies(Waiting(before), e.answered, d);
      }
    }
  }

  lemma MarkerIffWaiting(es: seq<Event>)
    ensures MarkerIn(Run(es).dir).Some? <==> Waiting(es) != []
  {
    MarkerIsTheWaiting(es);
  }

  /** Whether this event loses a slot: a logout with something to remember and a
      marker it cannot write, or a marker it cannot read and that is there. */
  predicate Loses(before: seq<Event>, e: Event) {
    Leaves(Run(before), e) && !e.withdrawn
    && (!e.disk.write || (!e.disk.read && MarkerIn(Run(before).dir).Some?))
  }

  ghost predicate SomeForgotten(es: seq<Event>) {
    exists d: DeviceId :: Forgotten(es, d) > 0
  }

  /** A slot is forgotten exactly by such a logout. With a marker the disk always
      reads and writes, none ever is. */
  lemma {:induction false} ForgottenIffLost(es: seq<Event>)
    ensures SomeForgotten(es) <==> exists i :: 0 <= i < |es| && Loses(es[..i], es[i])
  {
    if es != [] {
      var before, n := es[..|es| - 1], |es| - 1;
      ForgottenIffLost(before);
      SomeForgottenStep(before, es[n]);
      assert es == before + [es[n]] && es[..n] == before;
      hide Loses, SomeForgotten;
      forall i | 0 <= i < n ensures es[..i] == before[..i] && es[i] == before[i] {
      }
      if SomeForgotten(before) {
        var i :| 0 <= i < |before| && Loses(before[..i], before[i]);
        assert Loses(es[..i], es[i]);
      }
    }
  }

  lemma SomeForgottenStep(before: seq<Event>, e: Event)
    ensures SomeForgotten(before + [e]) <==> SomeForgotten(before) || Loses(before, e)
  {
    var es := before + [e];
    assert es[..|es| - 1] == before;
    MarkerIffWaiting(before);
    hide Run, Waiting, HomeAfter, MarkerIn;
    if Loses(before, e) {
      var d := if !e.disk.write then HomeAfter(before).value else Waiting(before)[0];
      assert Forgets(before, e, d) > 0;
      assert Forgotten(es, d) > 0;
    }
    if d: DeviceId :| Forgotten(before, d) > 0 {
      assert Forgotten(es, d) > 0;
    }
    if d: DeviceId :| Forgotten(es, d) > 0 {
      assert Forgotten(before, d) > 0 || Forgets(before, e, d) > 0;
    }
  }

  /** Whether the `j`-th event neither loses a slot nor strikes off a line of the
      device. */
  predicate LeavesAlone(es: seq<Event>, j: nat, d: DeviceId)
    requires j < |es|
  {
    !Loses(es[..j], es[j]) && StruckOff(es[..j], es[j], d) == 0
  }

  lemma SameEarlier(es: seq<Event>, j: nat, d: DeviceId)
    requires j < |es| - 1
    ensures LeavesAlone(es, j, d) == LeavesAlone(es[..|es| - 1], j, d)
    ensures es[..|es| - 1][..j] == es[..j]
  {
    assert es[..|es| - 1][..j] == es[..j];
  }

  /** No device slot is forgotten: while the disk reads and writes the marker, a
      device that left untold waits until an open in which a line of its own was
      answered. */
  lemma {:induction false} NoSlotIsForgotten(es: seq<Event>, i: nat, d: DeviceId)
    requires i < |es| && LeftUntold(es[..i], es[i], d) && !Loses(es[..i], es[i])
    requires forall j :: i < j < |es| ==> LeavesAlone(es, j, d)
    ensures d in Waiting(es)
    decreases |es|
  {
    hide Run, Waiting, Loses, StruckOff, LeftUntold, LeavesAlone;
    var before, n := es[..|es| - 1], |es| - 1;
    if i < n {
      SameEarlier(es, i, d);
      forall j | i < j < n ensures LeavesAlone(before, j, d) {
        SameEarlier(es, j, d);
      }
      NoSlotIsForgotten(before, i, d);
      LeftAlone(es, d);
    }
    StillWaits(before, es[n], d);
    assert es == before + [es[n]];
  }

  lemma LeftAlone(es: seq<Event>, d: DeviceId)
    requires es != [] && LeavesAlone(es, |es| - 1, d)
    ensures var before, e := es[..|es| - 1], es[|es| - 1]; !Loses(before, e) && StruckOff(before, e, d) == 0
  {
  }

  /** One event that neither loses a slot nor strikes off the device's line. */
  lemma StillWaits(before: seq<Event>, e: Event, d: DeviceId)
    requires !Loses(before, e)
    requires LeftUntold(before, e, d) || (d in Waiting(before) && StruckOff(before, e, d) == 0)
    ensures d in Waiting(before + [e])
  {
    assert (before + [e])[..|before + [e]| - 1] == before;
    MarkerIffWaiting(before);
    hide Run, HomeAfter, MarkerIn, Kept, AnsweredCopies;
    if Opens(Run(before), e) {
      KeptCopies(Waiting(before), e.answered, d);
    }
  }

  /** And none is invented: what waits left untold. */
  lemma WaitingLeftUntold(es: seq<Event>, d: DeviceId)
    ensures d in Waiting(es) ==> Departures(es, d) > 0
  {
    SlotsAreConserved(es, d);
  }

  /** For a device that left untold no more than once, waiting is exact: it waits
      if and only if that departure was neither answered nor lost since. */
  lemma WaitsExactlyOnce(es: seq<Event>, d: DeviceId)
    requires Departures(es, d) <= 1
    ensures d in Waiting(es) <==> Departures(es, d) == 1 && Answered(es, d) == 0 && Forgotten(es, d) == 0
  {
    SlotsAreConserved(es, d);
  }

  /** One more event, as the home, whether it is open and the devices waiting show
      it. */
  lemma Next(before: seq<Event>, e: Event)
    ensures var es, s := before + [e], Run(before);
            HomeAfter(es) == (if e.Restored? && HomeAfter(before).None? then Some(e.device)
                              else if Leaves(s, e) && e.renamed then None
                              else HomeAfter(before))
            && Run(es).open == (if e.AppClosed? || Leaves(s, e) then false else s.open || Opens(s, e))
            && Waiting(es) == (if Leaves(s, e) && !e.withdrawn
                               then WithOneMore(Waiting(before), HomeAfter(before).value, e.disk)
                               else if Opens(s, e) && e.disk == GRANTED then Kept(Waiting(before), e.answered)
                               else Waiting(before))
  {
    assert (before + [e])[..|before + [e]| - 1] == before;
    StepShown(Run(before), e);
    NodesStayInPlace(before);
  }

  /** A device listed twice can be answered about once and wait still: home could
      not be let go, so it left untold twice, and only one line was answered. */
  lemma AnsweredAndStillWaiting(d: DeviceId) returns (es: seq<Event>)
    ensures Departures(es, d) == 2 && Answered(es, d) == 1 && Forgotten(es, d) == 0 && Waiting(es) == [d]
  {
    var twice := TwiceListed(d);
    var e := Opened({}, {0}, GRANTED);
    es := twice + [e];
    Next(twice, e);
    hide Run, Kept, AnsweredCopies, HomeIn;
    assert es[..|es| - 1] == twice;
    FirstOfTwo(d);
  }

  lemma FirstOfTwo(d: DeviceId)
    ensures Kept([d, d], {0}) == [d] && AnsweredCopies([d, d], {0}, d) == 1
  {
    CopiesAnswered([d], {0}, d);
    CopiesAnswered([d, d], {0}, d);
    assert [d, d][..1] == [d];
  }

  lemma CopiesAnswered(ds: seq<DeviceId>, answered: set<nat>, d: DeviceId)
    requires ds != []
    ensures AnsweredCopies(ds, answered, d)
         == AnsweredCopies(ds[..|ds| - 1], answered, d) + if |ds| - 1 in answered && ds[|ds| - 1] == d then 1 else 0
    ensures |ds| == 1 ==> AnsweredCopies(ds[..|ds| - 1], answered, d) == 0 && Kept(ds[..|ds| - 1], answered) == []
  {
  }

  lemma TwiceListed(d: DeviceId) returns (es: seq<Event>)
    ensures HomeAfter(es) == Some(d) && !Run(es).open && Waiting(es) == [d, d]
    ensures Departures(es, d) == 2 && Answered(es, d) == 0 && Forgotten(es, d) == 0
  {
    es := [Restored(d)];
    Next([], Restored(d));
    assert [] + [Restored(d)] == es;
    assert es[..|es| - 1] == [];
    es := KeptHome(es, d);
    es := KeptHome(es, d);
  }

  /** An open and a logout, untold and without an erase, list the device once more. */
  lemma KeptHome(before: seq<Event>, d: DeviceId) returns (es: seq<Event>)
    requires HomeAfter(before) == Some(d) && !Run(before).open
    ensures |es| == |before| + 2 && before <= es && !es[|es| - 1].Restored? && !es[|es| - 2].Restored?
    ensures HomeAfter(es) == Some(d) && !Run(es).open
    ensures Waiting(es) == Waiting(before) + [d] && Departures(es, d) == Departures(before, d) + 1
    ensures Answered(es, d) == Answered(before, d) && Forgotten(es, d) == Forgotten(before, d)
  {
    hide HomeIn, Step;
    var reopened, out := Opened({}, {}, GRANTED), Logout(false, GRANTED, false, false, 0);
    var mid := before + [reopened];
    es := mid + [out];
    Next(before, reopened);
    Next(mid, out);
    assert mid[..|mid| - 1] == before && es[..|es| - 1] == mid;
    NoneAnswered(Waiting(before), d);
  }

  lemma {:induction false} NoneAnswered(ds: seq<DeviceId>, d: DeviceId)
    ensures AnsweredCopies(ds, {}, d) == 0 && Kept(ds, {}) == ds
  {
    if ds != [] {
      NoneAnswered(ds[..|ds| - 1], d);
    }
  }

  // -------------------------------------- a device asking about itself

  /** Every restored device is a new one. */
  predicate FreshIds(es: seq<Event>) {
    forall i, j :: 0 <= i < j < |es| && es[i].Restored? && es[j].Restored? ==> es[i].device != es[j].device
  }

  /** Whether the `j`-th event is an open that reads the marker. */
  predicate Reads(es: seq<Event>, j: nat)
    requires j < |es|
  {
    Opens(Run(es[..j]), es[j]) && es[j].disk.read
  }

  /** Whether that open finds its own device in it: it asks the coordinator to
      withdraw itself. */
  predicate AsksAboutItself(es: seq<Event>, j: nat)
    requires j < |es|
  {
    Reads(es, j) && HomeAfter(es[..j]).value in Waiting(es[..j])
  }

  /** Whether the `i`-th event is a logout, not told to the coordinator and
      remembered, whose home the disk would not let go. */
  predicate LeftAndStayed(es: seq<Event>, i: nat)
    requires i < |es|
  {
    Leaves(Run(es[..i]), es[i]) && !es[i].withdrawn && es[i].disk.write && !es[i].renamed
  }

  /** Whether the `k`-th event is a logout that removes the home. */
  predicate Erases(es: seq<Event>, k: nat)
    requires k < |es|
  {
    Leaves(Run(es[..k]), es[k]) && es[k].renamed
  }

  /** The logout at `i` left its device at home, and nothing removed it before `j`. */
  predicate StayedUntil(es: seq<Event>, i: nat, j: nat)
    requires i < j <= |es|
  {
    LeftAndStayed(es, i) && forall k :: i < k < j ==> !Erases(es, k)
  }

  lemma SamePrefix(es: seq<Event>, n: nat, k: nat)
    requires k < n <= |es|
    ensures es[..n][..k] == es[..k] && es[..n][k] == es[k]
    ensures LeftAndStayed(es[..n], k) == LeftAndStayed(es, k) && Erases(es[..n], k) == Erases(es, k)
    ensures Reads(es[..n], k) == Reads(es, k)
  {
    assert es[..n][..k] == es[..k];
  }

  lemma StayedPrefix(es: seq<Event>, n: nat, i: nat)
    requires i < n <= |es|
    ensures StayedUntil(es[..n], i, n) == StayedUntil(es, i, n)
  {
    hide LeftAndStayed, Erases, Reads;
    SamePrefix(es, n, i);
    forall k | i < k < n ensures Erases(es[..n], k) == Erases(es, k) {
      SamePrefix(es, n, k);
    }
  }

  lemma {:induction false} DevicesWereRestored(es: seq<Event>, d: DeviceId)
    ensures HomeAfter(es) == Some(d) || d in Waiting(es) ==> exists i :: 0 <= i < |es| && es[i] == Restored(d)
  {
    if es != [] {
      var before, e := es[..|es| - 1], es[|es| - 1];
      DevicesWereRestored(before, d);
      assert es == before + [e];
      Next(before, e);
      if e.Opened? {
        KeptCopies(Waiting(before), e.answered, d);
      }
      hide Run, HomeAfter, Waiting;
      assert forall i :: 0 <= i < |before| ==> before[i] == es[i];
    }
  }

  lemma FreshPrefix(es: seq<Event>, n: nat)
    requires n <= |es| && FreshIds(es)
    ensures FreshIds(es[..n])
  {
    assert forall i :: 0 <= i < n ==> es[..n][i] == es[i];
  }

  /** A newly restored device waits nowhere. */
  lemma NewDeviceWaitsNowhere(before: seq<Event>, d: DeviceId)
    requires FreshIds(before + [Restored(d)])
    ensures d !in Waiting(before)
  {
    var es := before + [Restored(d)];
    assert es[|before|] == Restored(d);
    assert forall i :: 0 <= i < |before| ==> before[i] == es[i] != Restored(d);
    DevicesWereRestored(before, d);
  }

  /** The device at home waits in the marker only after a logout of it that could
      not erase the home. */
  lemma {:induction false} HomeWaitsOnlyIfItStayed(es: seq<Event>) returns (i: nat)
    requires FreshIds(es) && HomeAfter(es).Some? && HomeAfter(es).value in Waiting(es)
    ensures i < |es| && StayedUntil(es, i, |es|)
  {
    var before, n := es[..|es| - 1], |es| - 1;
    assert es[..n] == before;
    if LeftAndStayed(es, n) {
      i := n;
    } else {
      FreshPrefix(es, n);
      assert es == before + [es[n]];
      StillHome(before, es[n], HomeAfter(es).value);
      i := HomeWaitsOnlyIfItStayed(before);
      StayedPrefix(es, n, i);
      hide LeftAndStayed;
      assert !Erases(es, n);
    }
  }

  lemma StillHome(before: seq<Event>, e: Event, d: DeviceId)
    requires var es := before + [e];
             FreshIds(es) && HomeAfter(es) == Some(d) && d in Waiting(es) && !LeftAndStayed(es, |before|)
    ensures HomeAfter(before) == Some(d) && d in Waiting(before) && !Erases(before + [e], |before|)
  {
    hide Run, HomeAfter, Waiting, Leaves, FreshIds;
    assert (before + [e])[..|before|] == before;
    WaitedOrLeft(before, e, d);
    CameHome(before, e);
    if e.Restored? {
      NewDeviceWaitsNowhere(before, e.device);
    }
  }

  /** What waits waited, or left just now. */
  lemma WaitedOrLeft(before: seq<Event>, e: Event, d: DeviceId)
    requires d in Waiting(before + [e])
    ensures d in Waiting(before)
            || (Leaves(Run(before), e) && !e.withdrawn && e.disk.write && HomeAfter(before) == Some(d))
  {
    Next(before, e);
    hide Run, HomeIn, Waiting, Kept, AnsweredCopies;
    if e.Opened? {
      KeptCopies(Waiting(before), e.answered, d);
    }
  }

  /** Whoever is home was, or came just now; and no erase leaves anybody. */
  lemma CameHome(before: seq<Event>, e: Event)
    ensures var home := HomeAfter(before + [e]);
            home.Some? ==>
              (home == HomeAfter(before) || (e.Restored? && home == Some(e.device)))
              && !(Leaves(Run(before), e) && e.renamed)
  {
    Next(before, e);
  }

  /** From such a logout on, until its home is removed or an open reads the marker,
      the device is at home and waiting. */
  lemma {:induction false} StaysWaiting(es: seq<Event>, i: nat)
    requires i < |es| && StayedUntil(es, i, |es|) && forall j :: i < j < |es| ==> !Reads(es, j)
    ensures HomeAfter(es).Some? && HomeAfter(es).value in Waiting(es)
    decreases |es|
  {
    var before, n := es[..|es| - 1], |es| - 1;
    assert es[..n] == before && es == before + [es[n]];
    if i < n {
      StayedPrefix(es, n, i);
      forall j | i < j < n ensures !Reads(before, j) {
        SamePrefix(es, n, j);
      }
      StaysWaiting(before, i);
      assert !Erases(es, n) && !Reads(es, n);
    }
    Next(before, es[n]);
  }

  /** A device asks for its own withdrawal exactly when a logout that was not told,
      and whose home could not be set aside, is followed by an open of that home
      which reads the marker: the marker is written before the erase is known to
      have worked. */
  lemma AsksAboutItselfWhenItStayed(es: seq<Event>)
    requires FreshIds(es)
    ensures (exists j :: 0 <= j < |es| && AsksAboutItself(es, j))
            <==> exists i, j :: 0 <= i < j < |es| && StayedUntil(es, i, j) && Reads(es, j)
  {
    if j :| 0 <= j < |es| && AsksAboutItself(es, j) {
      FreshPrefix(es, j);
      var i := HomeWaitsOnlyIfItStayed(es[..j]);
      StayedPrefix(es, j, i);
      hide StayedUntil, Reads, AsksAboutItself;
      assert StayedUntil(es, i, j) && Reads(es, j);
    }
    if i, k :| 0 <= i < k < |es| && StayedUntil(es, i, k) && Reads(es, k) {
      var j := FirstRead(es, i, k);
      FirstReadAsks(es, i, j, k);
    }
  }

  lemma FirstRead(es: seq<Event>, i: nat, k: nat) returns (j: nat)
    requires i < k < |es| && Reads(es, k)
    ensures i < j <= k && Reads(es, j) && forall m :: i < m < j ==> !Reads(es, m)
  {
    hide Reads;
    j := i + 1;
    while !Reads(es, j)
      invariant i < j <= k && forall m :: i < m < j ==> !Reads(es, m)
      decreases k - j
    {
      j := j + 1;
    }
  }

  lemma FirstReadAsks(es: seq<Event>, i: nat, j: nat, k: nat)
    requires i < j <= k < |es| && StayedUntil(es, i, k) && Reads(es, j)
    requires forall m :: i < m < j ==> !Reads(es, m)
    ensures AsksAboutItself(es, j)
  {
    assert StayedUntil(es, i, j);
    StayedPrefix(es, j, i);
    forall m | i < m < j ensures !Reads(es[..j], m) {
      SamePrefix(es, j, m);
    }
    hide StayedUntil, Run, Waiting;
    StaysWaiting(es[..j], i);
  }

  /** Such a run: restored, opened, out with neither the network nor the disk, and
      opened again. */
  lemma StayedDeviceAsks(d: DeviceId) returns (es: seq<Event>)
    ensures FreshIds(es) && |es| == 4 && AsksAboutItself(es, 3)
  {
    var e := Opened({}, {}, GRANTED);
    var start := [Restored(d)];
    Next([], Restored(d));
    assert [] + [Restored(d)] == start;
    var stayed := KeptHome(start, d);
    es := stayed + [e];
    assert stayed[0] == Restored(d) && !stayed[1].Restored? && !stayed[2].Restored?;
    hide Run, Waiting, HomeIn;
    assert es[..3] == stayed;
  }

  /** Two runs that lose a slot: a device that left untold and whose line could not
      be written, and one whose line was written over by the next. */
  lemma SlotLostUnwritten(d: DeviceId) returns (es: seq<Event>)
    ensures Forgotten(es, d) == 1 && Waiting(es) == []
  {
    es := OpenHome([], d);
    var out := Logout(false, Access(true, false), true, true, 0);
    Next(es, out);
    assert (es + [out])[..|es + [out]| - 1] == es;
    es := es + [out];
  }

  lemma SlotLostUnread(d: DeviceId, other: DeviceId) returns (es: seq<Event>)
    requires d != other
    ensures Forgotten(es, d) == 1 && Waiting(es) == [other]
  {
    var first := OpenHome([], d);
    var out, blind := Logout(false, GRANTED, true, true, 0), Logout(false, Access(false, true), true, true, 0);
    Next(first, out);
    var left := first + [out];
    assert left[..|left| - 1] == first;
    assert Waiting(left) == [d] && Copies([d], d) == 1 && Forgotten(left, d) == 0;
    es := OpenHome(left, other);
    hide HomeIn, Run;
    Next(es, blind);
    assert (es + [blind])[..|es + [blind]| - 1] == es;
    es := es + [blind];
  }

  /** An account restored and opened, nothing answered. */
  lemma OpenHome(before: seq<Event>, d: DeviceId) returns (es: seq<Event>)
    requires HomeAfter(before).None? && !Run(before).open
    ensures HomeAfter(es) == Some(d) && Run(es).open && Waiting(es) == Waiting(before)
    ensures forall x :: Forgotten(es, x) == Forgotten(before, x)
  {
    var e0, e1 := Restored(d), Opened({}, {}, GRANTED);
    var mid := before + [e0];
    es := mid + [e1];
    Next(before, e0);
    Next(mid, e1);
    assert mid[..|mid| - 1] == before && es[..|es| - 1] == mid;
    NoneAnswered(Waiting(before), d);
  }
}
