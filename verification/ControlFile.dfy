/** The control file of `crates/itsanas-cli/src/control.rs`: four optional
    numbers, printed as `key value` lines, read back from bytes. */
module ControlFile {
  import opened Text
  import opened Utf8

  const MAX_CONTROL_BYTES: nat := 4096

  /** What a person asked of the daemon. Every field is Unix seconds or seconds. */
  datatype Control = Control(
    pausedSince: Option<u64>,
    until: Option<u64>,
    interval: Option<u64>,
    syncAsked: Option<u64>)

  const DEFAULT := Control(None, None, None, None)

  /** Whether the pause holds at `now`: written, and open-ended or not over. */
  predicate PauseHolds(c: Control, now: u64) {
    c.pausedSince.Some? && (c.until.None? || now < c.until.value)
  }

  /** Why a file could not be taken as a control. */
  datatype Problem = CannotRead | NoLineEnd | HoldsNul | NotUtf8 | NotANumber

  datatype Outcome = Understood(control: Control) | Failed(problem: Problem)

  // -------------------------------------------------------------- parsing

  datatype Key = Paused | Until | Interval | SyncNow

  const KEYS: seq<Key> := [Paused, Until, Interval, SyncNow]

  function KeyName(k: Key): string {
    match k
    case Paused => "paused"
    case Until => "until"
    case Interval => "interval"
    case SyncNow => "sync-now"
  }

  function Get(c: Control, k: Key): Option<u64> {
    match k
    case Paused => c.pausedSince
    case Until => c.until
    case Interval => c.interval
    case SyncNow => c.syncAsked
  }

  function Set(c: Control, k: Key, v: u64): Control {
    match k
    case Paused => c.(pausedSince := Some(v))
    case Until => c.(until := Some(v))
    case Interval => c.(interval := Some(v))
    case SyncNow => c.(syncAsked := Some(v))
  }

  function KeyOf(word: string): Option<Key> {
    if word == "paused" then Some(Paused)
    else if word == "until" then Some(Until)
    else if word == "interval" then Some(Interval)
    else if word == "sync-now" then Some(SyncNow)
    else None
  }

  /** The words of a line, its comment cut off. */
  function WordsOf(line: string): seq<string> {
    Words(Trim(line[..Find(line, '#')]))
  }

  /** A line the parser passes over: blank, only a comment, or a key it does
      not know. */
  predicate PassedOver(line: string) {
    var words := WordsOf(line);
    words == [] || KeyOf(words[0]).None?
  }

  /** One line applied to what was understood so far. */
  function TakeLine(c: Control, line: string): Outcome {
    var words := WordsOf(line);
    if PassedOver(line) then Understood(c)
    else
      var value := if |words| > 1 then ParseU64(words[1]) else None;
      if value.None? then Failed(NotANumber)
      else Understood(Set(c, KeyOf(words[0]).value, value.value))
  }

  function TakeLines(c: Control, lines: seq<string>): Outcome
    decreases |lines|
  {
    if lines == [] then Understood(c)
    else
      match TakeLine(c, lines[0])
      case Failed(p) => Failed(p)
      case Understood(next) => TakeLines(next, lines[1..])
  }

  function Parsed(text: string): Outcome {
    TakeLines(DEFAULT, Lines(text))
  }

  /** `Control::parse`: the slots filled line by line. */
  method Parse(text: string) returns (r: Outcome)
    ensures r == Parsed(text)
  {
    var control := DEFAULT;
    var lines := Lines(text);
    for i := 0 to |lines|
      invariant Parsed(text) == TakeLines(control, lines[i..])
    {
      assert lines[i..][1..] == lines[i + 1..];
      var words := WordsOf(lines[i]);
      if words == [] {
        continue;
      }
      var key := KeyOf(words[0]);
      if key.None? {
        continue;
      }
      var number := if |words| > 1 then ParseU64(words[1]) else None;
      if number.None? {
        return Failed(NotANumber);
      }
      control := Set(control, key.value, number.value);
    }
    assert lines[|lines|..] == [];
    r := Understood(control);
  }

  // ------------------------------------------------------------- printing

  function RenderLine(k: Key, v: u64): string {
    KeyName(k) + " " + Decimal(v)
  }

  function RenderSlot(k: Key, slot: Option<u64>): string {
    match slot
    case None => ""
    case Some(v) => RenderLine(k, v) + "\n"
  }

  function RenderKeys(c: Control, keys: seq<Key>): string {
    if keys == [] then "" else RenderSlot(keys[0], Get(c, keys[0])) + RenderKeys(c, keys[1..])
  }

  function Rendered(c: Control): string {
    RenderKeys(c, KEYS)
  }

  /** `Control::render`: the text grown key by key, over the four keys. */
  method Render(c: Control) returns (text: string)
    ensures text == Rendered(c)
  {
    text := RenderEach(c, KEYS);
  }

  method RenderEach(c: Control, keys: seq<Key>) returns (text: string)
    ensures text == RenderKeys(c, keys)
  {
    text := "";
    for i := 0 to |keys|
      invariant RenderKeys(c, keys) == text + RenderKeys(c, keys[i..])
    {
      RenderKeysFrom(c, keys, i);
      var slot := RenderSlot(keys[i], Get(c, keys[i]));
      AppendAssociates(text, slot, RenderKeys(c, keys[i + 1..]));
      text := text + slot;
    }
    assert keys[|keys|..] == [];
  }

  lemma RenderKeysFrom(c: Control, keys: seq<Key>, i: nat)
    requires i < |keys|
    ensures RenderKeys(c, keys[i..]) == RenderSlot(keys[i], Get(c, keys[i])) + RenderKeys(c, keys[i + 1..])
  {
    assert keys[i..][1..] == keys[i + 1..];
  }

  // ----------------------------------------------------------- round trip

  lemma KeyNameIsWord(k: Key)
    ensures IsWord(KeyName(k)) && KeyOf(KeyName(k)) == Some(k)
    ensures Ascii(KeyName(k)) && |KeyName(k)| <= 8
    ensures forall i :: 0 <= i < |KeyName(k)| ==> KeyName(k)[i] != '#' && KeyName(k)[i] != '\n'
  {
  }

  lemma PlainLine(line: string)
    requires '#' !in line && line != [] && Tight(line)
    ensures WordsOf(line) == Words(line)
  {
    assert line[..|line|] == line;
    assert Find(line, '#') == |line|;
    assert Trim(line) == line;
  }

  lemma TakeRendered(c: Control, k: Key, v: u64)
    ensures TakeLine(c, RenderLine(k, v)) == Understood(Set(c, k, v))
    ensures '\n' !in RenderLine(k, v) && RenderLine(k, v) != []
    ensures RenderLine(k, v)[|RenderLine(k, v)| - 1] != '\r'
  {
    hide KeyName, KeyOf, Decimal, ParseU64, Words, WordsOf;
    KeyNameIsWord(k);
    DecimalIsWord(v);
    PlainLine(RenderLine(k, v));
    WordsOfTwo(KeyName(k), Decimal(v));
    ParseOfDecimal(v);
  }

  /** The slots of `c` named by `keys` copied over `into`. */
  function Copied(into: Control, c: Control, keys: seq<Key>): Control
    decreases |keys|
  {
    if keys == [] then into else Copied(CopySlot(into, c, keys[0]), c, keys[1..])
  }

  function CopySlot(into: Control, c: Control, k: Key): Control {
    match Get(c, k)
    case None => into
    case Some(v) => Set(into, k, v)
  }

  lemma TakeFirstLine(into: Control, line: string, next: Control, rest: string, tail: seq<string>)
    requires TakeLine(into, line) == Understood(next)
    requires '\n' !in line && line != [] && line[|line| - 1] != '\r'
    ensures TakeLines(into, Lines(line + "\n" + rest) + tail) == TakeLines(next, Lines(rest) + tail)
  {
    hide TakeLine, Lines;
    LinesOfOne(line, rest);
    var lines := [line] + Lines(rest) + tail;
    assert lines[0] == line && lines[1..] == Lines(rest) + tail;
  }

  lemma TakeRenderedSlot(into: Control, c: Control, k: Key, rest: string, tail: seq<string>)
    ensures var text := RenderSlot(k, Get(c, k)) + rest;
            TakeLines(into, Lines(text) + tail) == TakeLines(CopySlot(into, c, k), Lines(rest) + tail)
  {
    match Get(c, k) {
      case None =>
        assert RenderSlot(k, None) + rest == rest;
      case Some(v) =>
        TakeRendered(into, k, v);
        TakeFirstLine(into, RenderLine(k, v), Set(into, k, v), rest, tail);
    }
  }

  lemma {:induction false} TakeRenderedKeys(into: Control, c: Control, keys: seq<Key>, tail: seq<string>)
    ensures TakeLines(into, Lines(RenderKeys(c, keys)) + tail) == TakeLines(Copied(into, c, keys), tail)
    decreases |keys|
  {
    if keys == [] {
      assert [] + tail == tail;
    } else {
      TakeRenderedSlot(into, c, keys[0], RenderKeys(c, keys[1..]), tail);
      TakeRenderedKeys(CopySlot(into, c, keys[0]), c, keys[1..], tail);
    }
  }

  lemma {:induction false} RenderedWholeLines(c: Control, keys: seq<Key>)
    ensures WholeLines(RenderKeys(c, keys))
  {
    if keys != [] {
      RenderedWholeLines(c, keys[1..]);
      assert WholeLines(RenderSlot(keys[0], Get(c, keys[0])));
    }
  }

  lemma CopiedAll(c: Control)
    ensures Copied(DEFAULT, c, KEYS) == c
  {
    var one := CopySlot(DEFAULT, c, Paused);
    var two := CopySlot(one, c, Until);
    var three := CopySlot(two, c, Interval);
    assert KEYS[1..] == [Until, Interval, SyncNow];
    assert [Until, Interval, SyncNow][1..] == [Interval, SyncNow];
    assert [Interval, SyncNow][1..] == [SyncNow];
    assert [SyncNow][1..] == [];
    calc {
      Copied(DEFAULT, c, KEYS);
      Copied(one, c, [Until, Interval, SyncNow]);
      Copied(two, c, [Interval, SyncNow]);
      Copied(three, c, [SyncNow]);
      Copied(CopySlot(three, c, SyncNow), c, []);
      c;
    }
  }

  lemma {:induction false} PassedOverChangesNothing(c: Control, lines: seq<string>, rest: seq<string>)
    requires forall i :: 0 <= i < |lines| ==> PassedOver(lines[i])
    ensures TakeLines(c, lines + rest) == TakeLines(c, rest)
  {
    if lines == [] {
      assert lines + rest == rest;
    } else {
      assert (lines + rest)[1..] == lines[1..] + rest;
      PassedOverChangesNothing(c, lines[1..], rest);
    }
  }

  /** A newer writer's lines, comments and blanks, wherever they stand among
      lines of any kind, never change what a parse answers. */
  lemma {:induction false} UnknownLinesNeverMatter(c: Control, before: seq<string>, extra: seq<string>,
                                                   after: seq<string>)
    requires forall i :: 0 <= i < |extra| ==> PassedOver(extra[i])
    ensures TakeLines(c, before + extra + after) == TakeLines(c, before + after)
    decreases |before|
  {
    if before == [] {
      assert before + extra + after == extra + after && before + after == after;
      PassedOverChangesNothing(c, extra, after);
    } else {
      assert (before + extra + after)[1..] == before[1..] + extra + after;
      assert (before + after)[1..] == before[1..] + after;
      match TakeLine(c, before[0])
      case Failed(_) =>
      case Understood(next) => UnknownLinesNeverMatter(next, before[1..], extra, after);
    }
  }

  /** What was printed, with any lines of a newer writer after it, parses back
      to the same control. */
  lemma ParseOfRendered(c: Control, tail: string)
    requires forall i :: 0 <= i < |Lines(tail)| ==> PassedOver(Lines(tail)[i])
    ensures Parsed(Rendered(c) + tail) == Understood(c)
  {
    TakeRenderedKeys(DEFAULT, c, KEYS, Lines(tail));
    RenderedWholeLines(c, KEYS);
    LinesSplit(Rendered(c), tail);
    CopiedAll(c);
    PassedOverChangesNothing(c, Lines(tail), []);
    assert Lines(tail) + [] == Lines(tail);
  }

  /** The plain round trip, for every control. */
  lemma ParseRenderRoundTrip(c: Control)
    ensures Parsed(Rendered(c)) == Understood(c)
  {
    ParseOfRendered(c, "");
    assert Rendered(c) + "" == Rendered(c);
  }

  // -------------------------------------------------------------- reading

  datatype File = Missing | Unreadable | Holding(bytes: seq<byte>)

  /** The last line feed, as `rposition` finds it. */
  function LastLineFeed(b: seq<byte>): (r: Option<nat>)
    ensures r.Some? <==> LINE_FEED in b
    ensures r.Some? ==> r.value < |b| && b[r.value] == LINE_FEED
                        && forall i :: r.value < i < |b| ==> b[i] != LINE_FEED
  {
    if b == [] then None
    else if b[|b| - 1] == LINE_FEED then Some(|b| - 1)
    else
      assert b == b[..|b| - 1] + [b[|b| - 1]];
      LastLineFeed(b[..|b| - 1])
  }

  /** What a file of these bytes says. */
  function Understand(b: seq<byte>): Outcome {
    if 0 in b then Failed(HoldsNul)
    else
      match Decode(b)
      case None => Failed(NotUtf8)
      case Some(text) => Parsed(text)
  }

  /** The bytes that are looked at: all of them, or the whole lines that fit. */
  function Portion(bytes: seq<byte>): Option<seq<byte>> {
    if |bytes| <= MAX_CONTROL_BYTES then Some(bytes)
    else
      match LastLineFeed(bytes[..MAX_CONTROL_BYTES])
      case None => None
      case Some(end) => Some(bytes[..end + 1])
  }

  function Reading(file: File): Outcome {
    match file
    case Missing => Understood(DEFAULT)
    case Unreadable => Failed(CannotRead)
    case Holding(bytes) =>
      match Portion(bytes)
      case None => Failed(NoLineEnd)
      case Some(part) => Understand(part)
  }

  /** `Control::read`: at most one byte past the limit is taken, then cut at
      the last whole line that fits. */
  method Read(file: File) returns (r: Outcome)
    ensures r == Reading(file)
  {
    match file {
      case Missing => return Understood(DEFAULT);
      case Unreadable => return Failed(CannotRead);
      case Holding(_) =>
    }
    var bytes := if |file.bytes| > MAX_CONTROL_BYTES then file.bytes[..MAX_CONTROL_BYTES + 1] else file.bytes;
    if |bytes| > MAX_CONTROL_BYTES {
      bytes := bytes[..MAX_CONTROL_BYTES];
      assert bytes == file.bytes[..MAX_CONTROL_BYTES];
      var end := LastLineFeed(bytes);
      if end.None? {
        return Failed(NoLineEnd);
      }
      bytes := bytes[..end.value + 1];
      assert bytes == file.bytes[..end.value + 1];
    }
    if 0 in bytes {
      return Failed(HoldsNul);
    }
    var text := Decode(bytes);
    if text.None? {
      return Failed(NotUtf8);
    }
    r := Parse(text.value);
  }

  /** Lines cut off at a line's end are lines of the whole. */
  lemma CutPassesOver(tail: string, j: nat)
    requires forall i :: 0 <= i < |Lines(tail)| ==> PassedOver(Lines(tail)[i])
    requires j <= |tail| && WholeLines(tail[..j])
    ensures forall i :: 0 <= i < |Lines(tail[..j])| ==> PassedOver(Lines(tail[..j])[i])
  {
    hide PassedOver, Lines;
    assert tail == tail[..j] + tail[j..];
    LinesSplit(tail[..j], tail[j..]);
    forall i | 0 <= i < |Lines(tail[..j])| ensures PassedOver(Lines(tail[..j])[i]) {
      assert Lines(tail[..j])[i] == Lines(tail)[i];
    }
  }

  /** A text of a control and a tail of lines it passes over, cut at any line
      end past the control, still reads as that control. */
  lemma CutStillReads(c: Control, tail: string, k: nat)
    requires forall i :: 0 <= i < |Lines(tail)| ==> PassedOver(Lines(tail)[i])
    requires '\0' !in Rendered(c) + tail
    requires |Rendered(c)| <= k <= |Rendered(c) + tail|
    requires k == |Rendered(c) + tail| || WholeLines((Rendered(c) + tail)[..k])
    ensures Understand(Encode((Rendered(c) + tail)[..k])) == Understood(c)
  {
    hide PassedOver, Lines, Rendered, Encode, Decode, Parsed;
    var text := Rendered(c) + tail;
    var j := k - |Rendered(c)|;
    assert text[..k] == Rendered(c) + tail[..j];
    if k < |text| {
      CutPassesOver(tail, j);
    } else {
      assert tail[..j] == tail;
    }
    ParseOfRendered(c, tail[..j]);
    DecodeOfEncode(text[..k]);
    NulIsNul(text[..k]);
  }

  lemma {:induction false} RenderedIsShort(c: Control, keys: seq<Key>)
    ensures Ascii(RenderKeys(c, keys)) && |RenderKeys(c, keys)| <= 30 * |keys|
    ensures '\0' !in RenderKeys(c, keys)
  {
    if keys != [] {
      RenderedIsShort(c, keys[1..]);
      SlotIsShort(keys[0], Get(c, keys[0]));
      hide RenderSlot;
    }
  }

  lemma SlotIsShort(k: Key, slot: Option<u64>)
    ensures Ascii(RenderSlot(k, slot)) && |RenderSlot(k, slot)| <= 30 && '\0' !in RenderSlot(k, slot)
  {
    if slot.Some? {
      LineIsShort(k, slot.value);
      hide RenderLine;
    }
  }

  lemma NameIsPlain(k: Key)
    ensures forall i :: 0 <= i < |KeyName(k)| ==> 0 < KeyName(k)[i] as int < 0x80
  {
  }

  lemma LineIsShort(k: Key, v: u64)
    ensures |RenderLine(k, v)| <= 29
    ensures forall i :: 0 <= i < |RenderLine(k, v)| ==> 0 < RenderLine(k, v)[i] as int < 0x80
  {
    hide KeyName, Decimal;
    KeyNameIsWord(k);
    TenToTheTwenty();
    DecimalWidth(v, 20);
    var name, digits, line := KeyName(k), Decimal(v), RenderLine(k, v);
    NameIsPlain(k);
    assert line == name + " " + digits;
    hide RenderLine;
    forall i | 0 <= i < |line| ensures 0 < line[i] as int < 0x80 {
      if i < |name| {
        assert line[i] == name[i];
      } else if i > |name| {
        assert line[i] == digits[i - |name| - 1] && IsDigit(digits[i - |name| - 1]);
      }
    }
  }

  /** Past the limit, the cut at the last whole line still reads. */
  lemma LongStillReads(c: Control, tail: string, end: nat)
    requires forall i :: 0 <= i < |Lines(tail)| ==> PassedOver(Lines(tail)[i])
    requires '\0' !in Rendered(c) + tail
    requires |Encode(Rendered(c) + tail)| > MAX_CONTROL_BYTES
    requires LastLineFeed(Encode(Rendered(c) + tail)[..MAX_CONTROL_BYTES]) == Some(end)
    ensures Understand(Encode(Rendered(c) + tail)[..end + 1]) == Understood(c)
  {
    hide Rendered, Encode, Lines, PassedOver, Understand;
    var text := Rendered(c) + tail;
    assert Encode(text)[end] == Encode(text)[..MAX_CONTROL_BYTES][end] == LINE_FEED;
    var k := AsciiByteIsAChar(text, end);
    CutPastControl(c, tail, end, k);
    CutStillReads(c, tail, k + 1);
  }

  /** However much is appended to a written control, it reads as that control
      exactly when the limit leaves a whole line to read; otherwise it is refused,
      never read as asking nothing. */
  lemma ReadingOfGrown(c: Control, tail: string)
    requires forall i :: 0 <= i < |Lines(tail)| ==> PassedOver(Lines(tail)[i])
    requires '\0' !in tail
    ensures var bytes := Encode(Rendered(c) + tail);
            Reading(Holding(bytes))
            == if |bytes| <= MAX_CONTROL_BYTES || LINE_FEED in bytes[..MAX_CONTROL_BYTES] then Understood(c)
               else Failed(NoLineEnd)
  {
    var text := Rendered(c) + tail;
    var bytes := Encode(text);
    assert '\0' !in text by {
      RenderedIsShort(c, KEYS);
    }
    hide Rendered, Encode, Lines, PassedOver, Understand, Reading;
    PortionIs(bytes);
    if |bytes| <= MAX_CONTROL_BYTES {
      assert text[..|text|] == text;
      CutStillReads(c, tail, |text|);
    } else {
      var end := LastLineFeed(bytes[..MAX_CONTROL_BYTES]);
      if end.Some? {
        LongStillReads(c, tail, end.value);
      }
    }
  }

  lemma PortionIs(bytes: seq<byte>)
    ensures |bytes| <= MAX_CONTROL_BYTES ==> Reading(Holding(bytes)) == Understand(bytes)
    ensures |bytes| > MAX_CONTROL_BYTES ==>
              var end := LastLineFeed(bytes[..MAX_CONTROL_BYTES]);
              Reading(Holding(bytes))
              == (if end.Some? then Understand(bytes[..end.value + 1]) else Failed(NoLineEnd))
              && (end.Some? <==> LINE_FEED in bytes[..MAX_CONTROL_BYTES])
  {
    hide Understand;
    if |bytes| > MAX_CONTROL_BYTES {
      var head := bytes[..MAX_CONTROL_BYTES];
      var end := LastLineFeed(head);
      if end.Some? {
        assert head[..end.value + 1] == bytes[..end.value + 1];
      }
    }
  }

  /** The cut never falls inside the control: its own last line end fits. */
  lemma CutPastControl(c: Control, tail: string, end: nat, k: nat)
    requires |Encode(Rendered(c) + tail)| > MAX_CONTROL_BYTES
    requires LastLineFeed(Encode(Rendered(c) + tail)[..MAX_CONTROL_BYTES]) == Some(end)
    requires k < |Rendered(c) + tail|
    requires Encode((Rendered(c) + tail)[..k + 1]) == Encode(Rendered(c) + tail)[..end + 1]
    ensures |Rendered(c)| <= k + 1
  {
    var r := Rendered(c);
    var bytes := Encode(r + tail)[..MAX_CONTROL_BYTES];
    RenderedIsShort(c, KEYS);
    EncodeAppend(r, tail);
    EncodeAscii(r);
    RenderedWholeLines(c, KEYS);
    if r != [] {
      assert bytes[|r| - 1] == r[|r| - 1] as int == LINE_FEED;
      assert end >= |r| - 1;
      var m := if k + 1 <= |r| then k + 1 else |r|;
      assert (r + tail)[..m] == r[..m];
      EncodeAscii(r[..m]);
    }
  }

  lemma RenderedIsSomething(c: Control)
    requires c != DEFAULT
    ensures Rendered(c) != []
  {
    ParseRenderRoundTrip(c);
    assert Parsed("") == Understood(DEFAULT);
  }

  /** A pause, an interval or a stamp written before the growth is never lost. */
  lemma GrownControlStillReads(c: Control, tail: string)
    requires c != DEFAULT
    requires forall i :: 0 <= i < |Lines(tail)| ==> PassedOver(Lines(tail)[i])
    requires '\0' !in tail
    ensures Reading(Holding(Encode(Rendered(c) + tail))) == Understood(c)
  {
    var r := Rendered(c);
    RenderedIsShort(c, KEYS);
    RenderedWholeLines(c, KEYS);
    RenderedIsSomething(c);
    hide Rendered, RenderKeys, Encode, Reading, Lines, PassedOver;
    ReadingOfGrown(c, tail);
    EncodeAppend(r, tail);
    EncodeAscii(r);
    var bytes := Encode(r + tail);
    if |bytes| > MAX_CONTROL_BYTES {
      assert bytes[..MAX_CONTROL_BYTES][|r| - 1] == LINE_FEED;
    }
  }

  // ------------------------------------------------- what is understood

  /** The text those bytes are, without a NUL, that says this. */
  ghost predicate TextOf(bytes: seq<byte>, text: string, c: Control) {
    Portion(bytes) == Some(Encode(text)) && '\0' !in text && Parsed(text) == Understood(c)
  }

  /** A file is understood as a control exactly when what is looked at is the bytes
      of a text that says so; and that text is the only one with those bytes. */
  lemma UnderstoodIsOneText(bytes: seq<byte>, c: Control)
    ensures Reading(Holding(bytes)) == Understood(c) <==> exists text :: TextOf(bytes, text, c)
    ensures forall a, b :: TextOf(bytes, a, c) && TextOf(bytes, b, c) ==> a == b
  {
    hide Parsed, Encode, Decode;
    if Reading(Holding(bytes)) == Understood(c) {
      var part := Portion(bytes).value;
      EncodeOfDecode(part);
      NulIsNul(Decode(part).value);
      assert TextOf(bytes, Decode(part).value, c);
    }
    if text :| TextOf(bytes, text, c) {
      DecodeOfEncode(text);
      NulIsNul(text);
    }
    forall a, b | TextOf(bytes, a, c) && TextOf(bytes, b, c) ensures a == b {
      DecodeOfEncode(a);
      DecodeOfEncode(b);
    }
  }

  // ------------------------------------------- what a text says, line by line

  /** The words of a line before its comment. */
  function Said(line: string): seq<string> {
    Words(Trim(line[..Find(line, '#')]))
  }

  /** The number a line gives a key, if it is that key's. */
  function NumberFor(line: string, key: string): Option<u64> {
    if |Said(line)| > 1 && Said(line)[0] == key then ParseU64(Said(line)[1]) else None
  }

  predicate HasKey(line: string, key: string) {
    Said(line) != [] && Said(line)[0] == key
  }

  /** A known key without a number after it. */
  predicate BadLine(line: string) {
    exists key :: key in {"paused", "until", "interval", "sync-now"} && HasKey(line, key) && NumberFor(line, key).None?
  }

  /** What the last line with the key says. */
  function LastFor(lines: seq<string>, key: string): Option<u64> {
    if lines == [] then None
    else
      var n := |lines| - 1;
      if HasKey(lines[n], key) then NumberFor(lines[n], key) else LastFor(lines[..n], key)
  }

  lemma {:induction false} TakeOneMore(c: Control, lines: seq<string>, line: string)
    ensures TakeLines(c, lines + [line])
         == match TakeLines(c, lines) case Failed(p) => Failed(p) case Understood(next) => TakeLine(next, line)
    decreases |lines|
  {
    hide TakeLine;
    if lines == [] {
      assert lines + [line] == [line] && [line][1..] == [];
      assert TakeLines(c, [line]) == TakeLine(c, line);
    } else {
      assert (lines + [line])[0] == lines[0] && (lines + [line])[1..] == lines[1..] + [line];
      match TakeLine(c, lines[0]) {
        case Failed(_) =>
        case Understood(next) => TakeOneMore(next, lines[1..], line);
      }
    }
  }

  /** What one line does, key by key. */
  lemma LineMeans(c: Control, line: string)
    ensures TakeLine(c, line).Failed? <==> BadLine(line)
    ensures !BadLine(line) ==>
              TakeLine(c, line)
              == Understood(Control(
                              if HasKey(line, "paused") then NumberFor(line, "paused") else c.pausedSince,
                              if HasKey(line, "until") then NumberFor(line, "until") else c.until,
                              if HasKey(line, "interval") then NumberFor(line, "interval") else c.interval,
                              if HasKey(line, "sync-now") then NumberFor(line, "sync-now") else c.syncAsked))
  {
    hide Words, Trim, Find, ParseU64;
    if HasKey(line, "paused") {
      assert BadLine(line) <==> NumberFor(line, "paused").None?;
    } else if HasKey(line, "until") {
      assert BadLine(line) <==> NumberFor(line, "until").None?;
    } else if HasKey(line, "interval") {
      assert BadLine(line) <==> NumberFor(line, "interval").None?;
    } else if HasKey(line, "sync-now") {
      assert BadLine(line) <==> NumberFor(line, "sync-now").None?;
    }
  }

  /** A control of what the last line with each key says. */
  function LastOfEach(lines: seq<string>): Control {
    Control(LastFor(lines, "paused"), LastFor(lines, "until"), LastFor(lines, "interval"), LastFor(lines, "sync-now"))
  }

  predicate SomeBad(lines: seq<string>) {
    exists i :: 0 <= i < |lines| && BadLine(lines[i])
  }

  lemma SomeBadOneMore(lines: seq<string>, line: string)
    ensures SomeBad(lines + [line]) <==> SomeBad(lines) || BadLine(line)
  {
    hide BadLine;
    var more := lines + [line];
    if i :| 0 <= i < |lines| && BadLine(lines[i]) {
      assert BadLine(more[i]);
    }
    if BadLine(line) {
      assert BadLine(more[|lines|]);
    }
  }

  lemma {:induction false} LinesMean(lines: seq<string>)
    ensures TakeLines(Control(None, None, None, None), lines).Failed? <==> SomeBad(lines)
    ensures !SomeBad(lines) ==> TakeLines(Control(None, None, None, None), lines) == Understood(LastOfEach(lines))
  {
    if lines != [] {
      var most, last := lines[..|lines| - 1], lines[|lines| - 1];
      assert lines == most + [last];
      LinesMean(most);
      TakeOneMore(Control(None, None, None, None), most, last);
      LineMeans(LastOfEach(most), last);
      hide TakeLine, TakeLines, BadLine, SomeBad, HasKey, NumberFor;
      SomeBadOneMore(most, last);
    }
  }

  /** What a text says: it is refused if and only if some line gives a known key no
      number, and otherwise each key has the number of its last line, or none. */
  lemma TextMeans(text: string)
    ensures Parsed(text).Failed? <==> SomeBad(Lines(text))
    ensures Parsed(text).Understood? ==> Parsed(text).control == LastOfEach(Lines(text))
  {
    hide TakeLines, Lines, SomeBad, LastOfEach;
    LinesMean(Lines(text));
  }

  /** What is printed: a line a key that has a number, in this order. */
  lemma RenderedReads(c: Control)
    ensures Rendered(c)
         == (match c.pausedSince case None => "" case Some(n) => "paused " + Decimal(n) + "\n")
            + ((match c.until case None => "" case Some(n) => "until " + Decimal(n) + "\n")
               + ((match c.interval case None => "" case Some(n) => "interval " + Decimal(n) + "\n")
                  + (match c.syncAsked case None => "" case Some(n) => "sync-now " + Decimal(n) + "\n")))
  {
    hide Decimal;
    assert KEYS == [Paused, Until, Interval, SyncNow];
    assert KEYS[1..] == [Until, Interval, SyncNow] && KEYS[1..][1..] == [Interval, SyncNow];
    assert KEYS[1..][1..][1..] == [SyncNow] && KEYS[1..][1..][1..][1..] == [];
    SlotReads(c.pausedSince, c.until, c.interval, c.syncAsked);
    hide RenderSlot;
    var four := RenderKeys(c, [SyncNow]);
    assert RenderKeys(c, []) == "" && four == RenderSlot(SyncNow, c.syncAsked) + "" == RenderSlot(SyncNow, c.syncAsked);
    assert RenderKeys(c, [Interval, SyncNow]) == RenderSlot(Interval, c.interval) + four;
    assert RenderKeys(c, [Until, Interval, SyncNow]) == RenderSlot(Until, c.until) + RenderKeys(c, [Interval, SyncNow]);
  }

  lemma SlotReads(a: Option<u64>, b: Option<u64>, c: Option<u64>, d: Option<u64>)
    ensures RenderSlot(Paused, a) == match a case None => "" case Some(n) => "paused " + Decimal(n) + "\n"
    ensures RenderSlot(Until, b) == match b case None => "" case Some(n) => "until " + Decimal(n) + "\n"
    ensures RenderSlot(Interval, c) == match c case None => "" case Some(n) => "interval " + Decimal(n) + "\n"
    ensures RenderSlot(SyncNow, d) == match d case None => "" case Some(n) => "sync-now " + Decimal(n) + "\n"
  {
    assert "paused" + " " == "paused " && "until" + " " == "until ";
    assert "interval" + " " == "interval " && "sync-now" + " " == "sync-now ";
  }

  /** What is looked at: a file of up to 4096 bytes whole, and a longer one up to the
      last line feed of its first 4096 bytes, if they hold one. */
  lemma PortionMeans(bytes: seq<byte>, k: nat)
    requires k <= |bytes|
    ensures |bytes| <= 4096 ==> Portion(bytes) == Some(bytes)
    ensures |bytes| > 4096 ==>
              (Portion(bytes) == Some(bytes[..k])
               <==> 0 < k <= 4096 && bytes[k - 1] == 10 && 10 !in bytes[k..4096])
    ensures |bytes| > 4096 ==> (Portion(bytes).None? <==> 10 !in bytes[..4096])
  {
    if |bytes| > 4096 {
      var head := bytes[..4096];
      var end := LastLineFeed(head);
      assert forall i :: 0 <= i < 4096 ==> head[i] == bytes[i];
      if end.Some? {
        assert |bytes[..end.value + 1]| == end.value + 1;
        assert k <= 4096 ==> forall i :: k <= i < 4096 ==> bytes[k..4096][i - k] == bytes[i];
      }
    }
  }

  /** No file asks for nothing; one that cannot be read is an error. */
  lemma NoFileAsksNothing()
    ensures Reading(Missing) == Understood(Control(None, None, None, None)) && Reading(Unreadable).Failed?
  {
  }
}
