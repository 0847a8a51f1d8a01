/** What logging out, restoring and opening do to the files beside a phone's home,
    name by name: the rules of `crates/itsanas-cli/src/account.rs` written out. */
module Logouts {
  import opened Text
  import opened Utf8
  import opened Withdrawals

  // ------------------------------------------------------- one event

  /** The name a home set aside at this instant has. */
  function OldHome(stamp: nat): string {
    "node.removing-" + Decimal(stamp)
  }

  /** The same thing, or nothing, under the name before and after. */
  predicate Same(before: Directory, after: Directory, name: string) {
    if name in before then name in after && after[name] == before[name] else name !in after
  }

  predicate NodeAtHome(dir: Directory) {
    "node" in dir && dir["node"].Node?
  }

  predicate TextAt(dir: Directory, name: string) {
    name in dir && dir[name].Text?
  }

  /** A logout of an open home. Once the rename works there is no home; the old one
      stands under its new name exactly if the delete failed, and once the delete
      works no node is left of it. The marker gains the device's line if the
      coordinator was not told, over whatever could not be read. Nothing else
      beside the home changes. */
  lemma LogoutMeans(s: State, e: Event)
    requires e.Logout? && s.open && NodeAtHome(s.dir)
    ensures var after := Step(s, e);
            !after.open
            && (if !e.renamed then Same(s.dir, after.dir, "node") && Same(s.dir, after.dir, OldHome(e.stamp))
                else
                  "node" !in after.dir
                  && if e.deleted then OldHome(e.stamp) !in after.dir
                     else OldHome(e.stamp) in after.dir && after.dir[OldHome(e.stamp)] == s.dir["node"])
            && (if e.withdrawn || !e.disk.write then Same(s.dir, after.dir, "withdraw-after-login")
                else
                  TextAt(after.dir, "withdraw-after-login")
                  && after.dir["withdraw-after-login"].text
                     == (if TextAt(s.dir, "withdraw-after-login") && e.disk.read
                         then s.dir["withdraw-after-login"].text else "")
                        + HexOf(s.dir["node"].device) + "\n")
            && forall name :: name != "node" && name != "withdraw-after-login" && name != OldHome(e.stamp) ==>
                 Same(s.dir, after.dir, name)
  {
    NamesApart();
    assert Removing(OldHome(e.stamp));
  }

  /** An event that does nothing: a logout of a home that is closed or not there, an
      open of one that is open or not there, a restore over a home. */
  lemma NothingHappens(s: State, e: Event)
    ensures e.Logout? && !(s.open && NodeAtHome(s.dir)) ==> Step(s, e) == s
    ensures e.Opened? && (s.open || !NodeAtHome(s.dir)) ==> Step(s, e) == s
    ensures e.Restored? && "node" in s.dir ==> Step(s, e) == s
    ensures e.Restored? && "node" !in s.dir ==> Step(s, e) == State(s.dir["node" := Node(e.device)], s.open)
    ensures e.AppClosed? ==> Step(s, e) == State(s.dir, false)
  {
  }

  /** The lines kept, by index: in order, every line that is a device's and was not
      answered. */
  ghost predicate Picks(lines: seq<string>, answered: set<nat>, kept: seq<string>, at: seq<nat>) {
    InPlace(lines, kept, at) && forall i: nat :: i in at <==> i < |lines| && KeptAt(lines, answered, i)
  }

  /** The lines at these places, in order. */
  predicate InPlace(lines: seq<string>, kept: seq<string>, at: seq<nat>) {
    |at| == |kept|
    && (forall k :: 0 <= k < |at| ==> at[k] < |lines| && kept[k] == lines[at[k]])
    && forall j, k :: 0 <= j < k < |at| ==> at[j] < at[k]
  }

  predicate KeptAt(lines: seq<string>, answered: set<nat>, i: nat)
    requires i < |lines|
  {
    ParseDevice(Trim(lines[i])).Some? && i !in answered
  }

  lemma {:induction false} KeptArePicked(lines: seq<string>, answered: set<nat>) returns (at: seq<nat>)
    ensures Picks(lines, answered, KeptLines(lines, answered), at)
  {
    at := [];
    if lines != [] {
      var n := |lines| - 1;
      var before := KeptArePicked(lines[..n], answered);
      at := if KeepsLine(lines[n], n in answered) then before + [n] else before;
      PickOneMore(lines, answered, before);
    }
  }

  lemma PickOneMore(lines: seq<string>, answered: set<nat>, before: seq<nat>)
    requires lines != []
    requires var most := lines[..|lines| - 1]; Picks(most, answered, KeptLines(most, answered), before)
    ensures var n := |lines| - 1;
            Picks(lines, answered, KeptLines(lines, answered),
                  if KeepsLine(lines[n], n in answered) then before + [n] else before)
  {
    hide ParseDevice, Trim, InPlace;
    var n := |lines| - 1;
    var most, at := lines[..n], if KeepsLine(lines[n], n in answered) then before + [n] else before;
    PlaceOneMore(lines, KeptLines(most, answered), before);
    assert KeptLines(most, answered) + [] == KeptLines(most, answered);
    forall i: nat ensures i in at <==> i < |lines| && KeptAt(lines, answered, i) {
      assert i in at <==> i in before || (i == n && KeepsLine(lines[n], n in answered));
      assert i in before <==> i < n && KeptAt(most, answered, i);
    }
  }

  lemma PlaceOneMore(lines: seq<string>, kept: seq<string>, before: seq<nat>)
    requires lines != [] && InPlace(lines[..|lines| - 1], kept, before)
    ensures var n := |lines| - 1;
            InPlace(lines, kept, before) && InPlace(lines, kept + [lines[n]], before + [n])
  {
  }

  /** An open of a closed home. The old homes the disk lets go are gone, every node
      elsewhere stays. A marker that can be read and written keeps, in order,
      exactly the lines that are a device's and were not answered, and is removed
      when there is none. */
  lemma OpenMeans(s: State, e: Event) returns (kept: seq<string>, at: seq<nat>)
    requires e.Opened? && !s.open && NodeAtHome(s.dir)
    ensures var after := Step(s, e);
            after.open
            && (forall name :: name != "withdraw-after-login" ==>
                  if "node.removing-" <= name && name in e.gone then name !in after.dir
                  else Same(s.dir, after.dir, name))
            && if !TextAt(s.dir, "withdraw-after-login") || !e.disk.read || !e.disk.write
               then Same(s.dir, after.dir, "withdraw-after-login")
               else
                 Picks(Lines(s.dir["withdraw-after-login"].text), e.answered, kept, at)
                 && if at == [] then "withdraw-after-login" !in after.dir
                    else after.dir.Keys >= {"withdraw-after-login"}
                         && after.dir["withdraw-after-login"] == Withdrawals.Text(Joined(kept))
  {
    NamesApart();
    SweptKeeps(s.dir, e.gone);
    kept, at := [], [];
    if TextAt(s.dir, "withdraw-after-login") {
      var lines := Lines(s.dir["withdraw-after-login"].text);
      kept := KeptLines(lines, e.answered);
      at := KeptArePicked(lines, e.answered);
    }
    hide KeptLines, Picks, Lines;
    OpenedTo(s, e);
  }

  lemma OpenedTo(s: State, e: Event)
    requires e.Opened? && !s.open && NodeAtHome(s.dir)
    ensures Step(s, e) == State(WithMarker(Swept(s.dir, e.gone), Withdrawn(MarkerIn(s.dir), e.answered, e.disk)), true)
  {
    SweptKeeps(s.dir, e.gone);
  }

  // ------------------------------------------------------- every run

  /** Whether this event leaves the home under the old home's name. */
  predicate SetsAside(before: seq<Event>, e: Event, stamp: nat) {
    var s := Run(before);
    e.Logout? && s.open && NodeAtHome(s.dir) && e.renamed && !e.deleted && e.stamp == stamp
  }

  /** Whether it lets that old home go: an open that swept it, or a logout that
      deleted its own under the same name. */
  predicate Clears(before: seq<Event>, e: Event, stamp: nat) {
    var s := Run(before);
    (e.Opened? && !s.open && NodeAtHome(s.dir) && OldHome(stamp) in e.gone)
    || (e.Logout? && s.open && NodeAtHome(s.dir) && e.renamed && e.deleted && e.stamp == stamp)
  }

  /** A logout left it there, and nothing let it go since. */
  predicate LeftBehind(es: seq<Event>, stamp: nat) {
    exists i :: 0 <= i < |es| && SetsAside(es[..i], es[i], stamp)
                && forall j :: i < j < |es| ==> !Clears(es[..j], es[j], stamp)
  }

  lemma LeftBehindOneMore(before: seq<Event>, e: Event, stamp: nat)
    ensures LeftBehind(before + [e], stamp)
            <==> SetsAside(before, e, stamp) || (LeftBehind(before, stamp) && !Clears(before, e, stamp))
  {
    hide SetsAside, Clears;
    var es, n := before + [e], |before|;
    assert es[..n] == before && es[n] == e;
    forall i | 0 <= i < n ensures es[..i] == before[..i] && es[i] == before[i] {
    }
    if i :| 0 <= i < |es| && SetsAside(es[..i], es[i], stamp)
            && forall j :: i < j < |es| ==> !Clears(es[..j], es[j], stamp) {
      if i < n {
        assert !Clears(es[..n], es[n], stamp);
        assert SetsAside(before[..i], before[i], stamp);
      }
    }
    if SetsAside(before, e, stamp) {
      assert SetsAside(es[..n], es[n], stamp);
    }
    if !Clears(before, e, stamp) {
      if i :| 0 <= i < n && SetsAside(before[..i], before[i], stamp)
              && forall j :: i < j < n ==> !Clears(before[..j], before[j], stamp) {
        assert SetsAside(es[..i], es[i], stamp);
      }
    }
  }

  lemma OldHomeStep(s: State, e: Event, stamp: nat)
    ensures var before, after := s.dir, Step(s, e).dir;
            OldHome(stamp) in after
            <==> (e.Logout? && s.open && NodeAtHome(before) && e.renamed && !e.deleted && e.stamp == stamp)
                 || (OldHome(stamp) in before
                     && !(e.Opened? && !s.open && NodeAtHome(before) && OldHome(stamp) in e.gone)
                     && !(e.Logout? && s.open && NodeAtHome(before) && e.renamed && e.deleted && e.stamp == stamp))
  {
    NamesApart();
    assert Removing(OldHome(stamp));
    NothingHappens(s, e);
    if e.Logout? && s.open && NodeAtHome(s.dir) {
      LogoutMeans(s, e);
      if OldHome(stamp) == OldHome(e.stamp) {
        assert RemovingName(stamp) == RemovingName(e.stamp);
        RemovingNameInjective(stamp, e.stamp);
      }
      hide Step;
      assert OldHome(stamp) != "node" && OldHome(stamp) != "withdraw-after-login";
    } else if e.Opened? && !s.open && NodeAtHome(s.dir) {
      var _, _ := OpenMeans(s, e);
      hide Step, Picks;
      assert OldHome(stamp) != "withdraw-after-login" && "node.removing-" <= OldHome(stamp);
    }
  }

  /** After any run, an old home is on the disk, keys and all, exactly when some
      logout could not delete it and nothing has let it go since. */
  lemma {:induction false} OldHomesMean(es: seq<Event>, stamp: nat)
    ensures OldHome(stamp) in Run(es).dir <==> LeftBehind(es, stamp)
  {
    if es != [] {
      var before, e := es[..|es| - 1], es[|es| - 1];
      OldHomesMean(before, stamp);
      OldHomeStep(Run(before), e, stamp);
      LeftBehindOneMore(before, e, stamp);
      assert es == before + [e];
      hide Run, LeftBehind, Step;
      assert Run(es) == Step(Run(before), e) by {
        RunStep(es);
      }
    }
  }

  lemma RunStep(es: seq<Event>)
    requires es != []
    ensures Run(es) == Step(Run(es[..|es| - 1]), es[|es| - 1])
  {
  }

  // --------------------------------------------------------- the ids

  const HEX := "0123456789abcdef"

  /** An id is printed high half first, in lower case. */
  lemma {:induction false} HexMeans(bytes: seq<byte>, i: nat)
    requires i < |bytes|
    ensures |HexOf(bytes)| == 2 * |bytes|
    ensures HexOf(bytes)[2 * i] == HEX[bytes[i] / 16] && HexOf(bytes)[2 * i + 1] == HEX[bytes[i] % 16]
  {
    hide HexOf;
    BytesOfHex(bytes);
    HexFront(bytes);
    if i > 0 {
      HexMeans(bytes[1..], i - 1);
      assert HexOf(bytes)[2 * i] == HexOf(bytes)[2..][2 * (i - 1)];
      assert HexOf(bytes)[2 * i + 1] == HexOf(bytes)[2..][2 * (i - 1) + 1];
    }
  }

  lemma HexFront(bytes: seq<byte>)
    requires bytes != []
    ensures var s := HexOf(bytes);
            |s| >= 2 && s[0] == HEX[bytes[0] / 16] && s[1] == HEX[bytes[0] % 16] && s[2..] == HexOf(bytes[1..])
  {
    HexDigitIs(bytes[0] / 16);
    HexDigitIs(bytes[0] % 16);
    hide HexDigit;
  }

  lemma HexDigitIs(d: nat)
    requires d < 16
    ensures HexDigit(d) == HEX[d]
  {
  }

  /** A hexadecimal digit, in either case. */
  predicate IsHex(c: char) {
    '0' <= c <= '9' || 'a' <= c <= 'f' || 'A' <= c <= 'F'
  }

  lemma {:induction false} BytesIffHex(s: string)
    ensures BytesOf(s).Some? <==> |s| % 2 == 0 && forall i :: 0 <= i < |s| ==> IsHex(s[i])
  {
    if |s| > 1 {
      BytesIffHex(s[2..]);
      if forall i :: 0 <= i < |s[2..]| ==> IsHex(s[2..][i]) {
        assert forall i :: 2 <= i < |s| ==> s[i] == s[2..][i - 2];
      }
    }
  }

  /** A line is a device's when it is 64 hexadecimal digits, in either case. */
  lemma DeviceMeans(s: string)
    ensures ParseDevice(s).Some? <==> |s| == 64 && forall i :: 0 <= i < |s| ==> IsHex(s[i])
  {
    BytesIffHex(s);
  }
}
