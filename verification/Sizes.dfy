/** Byte counts shown, read back and typed: `crates/itsanas-node/src/config.rs`,
    and the room a copy needs on a key: `crates/itsanas-cli/src/copy_to_key.rs`. */
module Sizes {
  import opened Arithmetic
  import opened Text

  const KIB: nat := 1024
  const MIB: nat := 1024 * KIB
  const GIB: nat := 1024 * MIB
  const TIB: nat := 1024 * GIB

  datatype Unit = Byte | Kib | Mib | Gib | Tib

  function Worth(u: Unit): nat {
    match u
    case Byte => 1
    case Kib => KIB
    case Mib => MIB
    case Gib => GIB
    case Tib => TIB
  }

  function UnitName(u: Unit): string {
    match u
    case Byte => "B"
    case Kib => "KiB"
    case Mib => "MiB"
    case Gib => "GiB"
    case Tib => "TiB"
  }

  /** The largest unit that fits in the count. */
  function ShownIn(bytes: nat): Unit {
    if bytes >= TIB then Tib
    else if bytes >= GIB then Gib
    else if bytes >= MIB then Mib
    else if bytes >= KIB then Kib
    else Byte
  }

  function Tenths(bytes: nat, unit: nat): nat
    requires unit > 0
  {
    bytes % unit * 10 / unit
  }

  /** The number `format_size` shows, floored to a tenth of its unit. */
  function ShownNumber(bytes: nat): string {
    var u := ShownIn(bytes);
    if u.Byte? then Decimal(bytes) else Decimal(bytes / Worth(u)) + "." + Decimal(Tenths(bytes, Worth(u)))
  }

  function FormatSize(bytes: u64): string {
    ShownNumber(bytes) + " " + UnitName(ShownIn(bytes))
  }

  // ---------------------------------------------- reading it back

  const LABEL := "your content"

  /** The first line with the label, without it. */
  function Labelled(lines: seq<string>): Option<string> {
    if lines == [] then None
    else
      match StripPrefix(TrimStart(lines[0]), LABEL)
      case Some(rest) => Some(rest)
      case None => Labelled(lines[1..])
  }

  function UnitOf(name: string): Option<Unit> {
    if name == "B" then Some(Byte)
    else if name == "KiB" then Some(Kib)
    else if name == "MiB" then Some(Mib)
    else if name == "GiB" then Some(Gib)
    else if name == "TiB" then Some(Tib)
    else None
  }

  /** A whole number and tenths, one tenth more, in bytes. */
  function OneTenthMore(whole: u64, tenths: u64, unit: nat): u64 {
    Saturated(Saturated(whole * unit) + Saturated(Saturated(tenths + 1) * unit) / 10)
  }

  function SizeIn(number: string, u: Unit): Option<u64> {
    if u.Byte? then ParseU64(number)
    else
      var (whole, tenths) := match SplitOnce(number, '.') case None => (number, "0") case Some(parts) => parts;
      match ParseU64(whole)
      case None => None
      case Some(w) =>
        match ParseU64(tenths)
        case None => None
        case Some(t) => Some(OneTenthMore(w, t, Worth(u)))
  }

  /** What a label's line says, the label taken off. */
  function SizeOnLine(line: string): Option<u64> {
    match SplitOnce(Trim(line), ' ')
    case None => None
    case Some((number, unit)) =>
      match UnitOf(Trim(unit))
      case None => None
      case Some(u) => SizeIn(number, u)
  }

  /** `content_in`. */
  function ContentIn(snapshot: string): Option<u64> {
    match Labelled(Lines(snapshot))
    case None => None
    case Some(line) => SizeOnLine(line)
  }

  /** The bound on a size read back: never less than what was shown, and never
      more than a tenth of its unit above. */
  predicate ReadsBack(n: nat, read: nat) {
    n <= read && read - n <= if ShownIn(n).Byte? then 0 else Worth(ShownIn(n)) / 10
  }

  lemma TenthsBounds(r: nat, unit: nat, t: nat)
    requires r < unit && t == r * 10 / unit
    ensures t < 10 && t * unit <= r * 10 < (t + 1) * unit
  {
    Division(r * 10, unit);
    assert (t + 1) * unit == t * unit + unit;
    if t >= 10 {
      MulMono(10, t, unit);
    }
  }

  lemma TenthStep(r: nat, below: nat, unit: nat)
    requires below <= r * 10 < below + unit
    ensures r <= (below + unit) / 10 && (below + unit) / 10 - r <= unit / 10
  {
  }

  lemma SaturatedBounds(n: u64, unit: nat, q: u64, r: nat, t: nat)
    requires 0 < unit <= TIB && n == q * unit + r && t < 10
    requires t * unit <= r * 10 < (t + 1) * unit
    ensures var read := OneTenthMore(q, t, unit);
            n <= read && read - n <= unit / 10
  {
    assert (t + 1) * unit == t * unit + unit;
    MulMono(t + 1, 10, unit);
    TenthStep(r, t * unit, unit);
    var whole, part := q * unit, (t + 1) * unit;
    assert OneTenthMore(q, t, unit) == Saturated(whole + part / 10);
  }

  lemma ShownReads(n: u64)
    ensures var r := SizeIn(ShownNumber(n), ShownIn(n)); r.Some? && ReadsBack(n, r.value)
  {
    var u := ShownIn(n);
    if u.Byte? {
      ParseOfDecimal(n);
    } else {
      var unit := Worth(u);
      Division(n, unit);
      TenthsBounds(n % unit, unit, Tenths(n, unit));
      SaturatedBounds(n, unit, n / unit, n % unit, Tenths(n, unit));
      ParseOfDecimal(n / unit);
      ParseOfDecimal(Tenths(n, unit));
      assert '.' !in Decimal(n / unit) by {
        assert forall i :: 0 <= i < |Decimal(n / unit)| ==> IsDigit(Decimal(n / unit)[i]);
      }
      SplitOnceAppended(Decimal(n / unit), '.', Decimal(Tenths(n, unit)));
    }
  }

  lemma ShownIsAWord(n: u64)
    ensures IsWord(ShownNumber(n)) && ' ' !in ShownNumber(n)
  {
    hide Decimal, ShownIn, Tenths;
    var unit := Worth(ShownIn(n));
    DecimalIsWord(n);
    DecimalIsWord(n / unit);
    DecimalIsWord(Tenths(n, unit));
    WordsWithADot(Decimal(n / unit), Decimal(Tenths(n, unit)));
  }

  lemma WordsWithADot(a: string, b: string)
    requires IsWord(a) && IsWord(b)
    ensures IsWord(a + "." + b)
  {
  }

  lemma UnitNameReads(u: Unit)
    ensures UnitOf(UnitName(u)) == Some(u) && Trim(UnitName(u)) == UnitName(u) && IsWord(UnitName(u))
  {
    assert IsWord(UnitName(u));
    TrimPadded("", UnitName(u));
    assert "" + UnitName(u) == UnitName(u);
  }

  lemma FormattedLineReads(n: u64, pad: string)
    requires forall i :: 0 <= i < |pad| ==> IsSpace(pad[i])
    ensures var r := SizeOnLine(pad + FormatSize(n)); r.Some? && ReadsBack(n, r.value)
  {
    hide ShownNumber, SizeIn, UnitName, UnitOf, ReadsBack;
    var u := ShownIn(n);
    ShownIsAWord(n);
    UnitNameReads(u);
    TrimPadded(pad, FormatSize(n));
    SplitOnceAppended(ShownNumber(n), ' ', UnitName(u));
    ShownReads(n);
  }

  /** The line the daemon's status writes for its account's content. */
  function ContentLine(n: u64): string {
    "  " + LABEL + "    " + FormatSize(n)
  }

  lemma {:induction false} LabelledSkips(before: seq<string>, line: string, after: seq<string>)
    requires forall i :: 0 <= i < |before| ==> StripPrefix(TrimStart(before[i]), LABEL).None?
    ensures Labelled(before + [line] + after)
         == match StripPrefix(TrimStart(line), LABEL) case Some(rest) => Some(rest) case None => Labelled(after)
  {
    var all := before + [line] + after;
    if before == [] {
      assert all[0] == line && all[1..] == after;
    } else {
      assert all[0] == before[0] && all[1..] == before[1..] + [line] + after;
      LabelledSkips(before[1..], line, after);
    }
  }

  lemma ContentLineIs(n: u64)
    ensures StripPrefix(TrimStart(ContentLine(n)), LABEL) == Some("    " + FormatSize(n))
    ensures '\n' !in ContentLine(n) && ContentLine(n)[|ContentLine(n)| - 1] != '\r'
  {
    NoLineEnd(n);
    hide FormatSize;
    LabelStrips("    " + FormatSize(n));
    assert ContentLine(n) == "  " + (LABEL + ("    " + FormatSize(n)));
    assert '\n' !in LABEL;
  }

  lemma LabelStrips(rest: string)
    ensures StripPrefix(TrimStart("  " + (LABEL + rest)), LABEL) == Some(rest)
  {
    var body := LABEL + rest;
    assert body[0] == 'y' && TrimStart(body) == body;
    TrimStartSpaces("  " + body, 2);
    assert ("  " + body)[2..] == body;
    assert body[|LABEL|..] == rest && body[..|LABEL|] == LABEL;
  }

  lemma NoLineEnd(n: u64)
    ensures '\n' !in FormatSize(n) && FormatSize(n)[|FormatSize(n)| - 1] != '\r'
  {
    ShownIsAWord(n);
    UnitNameReads(ShownIn(n));
    hide ShownNumber, UnitName;
    assert '\n' !in ShownNumber(n) && '\n' !in UnitName(ShownIn(n));
  }

  /** A status whose first content line shows `n` reads back as at least `n`, and
      at most a tenth of the unit more; `n` itself when it was shown in bytes. */
  lemma ContentNeverUnderCounts(before: string, n: u64, after: string)
    requires WholeLines(before)
    requires forall i :: 0 <= i < |Lines(before)| ==> StripPrefix(TrimStart(Lines(before)[i]), LABEL).None?
    ensures var r := ContentIn(before + (ContentLine(n) + "\n" + after)); r.Some? && ReadsBack(n, r.value)
  {
    hide ContentLine, FormatSize, SizeOnLine, ReadsBack, Lines, TrimStart;
    ContentLineIs(n);
    LinesSplit(before, ContentLine(n) + "\n" + after);
    LinesOfOne(ContentLine(n), after);
    AppendAssociates3(Lines(before), [ContentLine(n)], Lines(after));
    LabelledSkips(Lines(before), ContentLine(n), Lines(after));
    FormattedLineReads(n, "    ");
  }

  lemma AppendAssociates3(a: seq<string>, b: seq<string>, c: seq<string>)
    ensures a + (b + c) == a + b + c
  {
  }

  // -------------------------------------------------------- the room

  const PROGRAMS_GUESS: nat := 45 * MIB

  datatype Room = Enough(needed: u64) | CannotSay(needed: u64) | TooLittle(needed: u64)

  function ProgramsBytes(programs: Option<u64>): u64 {
    if programs.Some? then programs.value else PROGRAMS_GUESS
  }

  /** `room`. */
  function RoomFor(programs: Option<u64>, content: Option<u64>, free: Option<u64>): Room {
    var needed := Saturated(ProgramsBytes(programs) + if content.Some? then content.value else 0);
    if free.None? then CannotSay(needed)
    else if free.value < needed then TooLittle(needed)
    else Enough(needed)
  }

  /** A status text whose first content line shows `n`. */
  predicate ShowsContent(status: string, before: string, n: u64, after: string) {
    status == before + (ContentLine(n) + "\n" + after) && WholeLines(before)
    && forall i :: 0 <= i < |Lines(before)| ==> StripPrefix(TrimStart(Lines(before)[i]), LABEL).None?
  }

  /** Accepted on what the status says, the drive has room for the programs and the
      real content exactly when the two fit in 64 bits at all. */
  lemma AcceptedHasRoom(programs: Option<u64>, status: string, before: string, n: u64, after: string, free: u64)
    requires ShowsContent(status, before, n, after)
    requires RoomFor(programs, ContentIn(status), Some(free)).Enough?
    ensures ProgramsBytes(programs) + n <= free <==> ProgramsBytes(programs) + n <= U64_MAX
  {
    ContentNeverUnderCounts(before, n, after);
    hide ContentIn, ContentLine;
  }

  /** And a drive with a tenth of the unit to spare is never refused. */
  lemma EnoughIsAccepted(programs: Option<u64>, status: string, before: string, n: u64, after: string, free: u64)
    requires ShowsContent(status, before, n, after)
    requires ProgramsBytes(programs) + n + Worth(ShownIn(n)) / 10 <= free
    ensures RoomFor(programs, ContentIn(status), Some(free)).Enough?
  {
    ContentNeverUnderCounts(before, n, after);
    hide ContentIn, ContentLine;
  }

  /** A drive accepted without the room: as many bytes of content as there are
      numbers for, and one byte of programs. */
  lemma AcceptedWithoutRoom()
    ensures var programs, status := Some(1), "" + (ContentLine(U64_MAX) + "\n" + "");
            ShowsContent(status, "", U64_MAX, "") && RoomFor(programs, ContentIn(status), Some(U64_MAX)).Enough?
            && ProgramsBytes(programs) + U64_MAX > U64_MAX
  {
  }

  // ------------------------------------------- sizes a person can type

  /** The unit a price is quoted in. */
  function QuotedIn(bytes: nat): Unit {
    if bytes >= TIB && bytes % TIB == 0 then Tib
    else if bytes >= GIB then Gib else if bytes >= MIB then Mib else if bytes >= KIB then Kib else Byte
  }

  function Suffix(u: Unit): string {
    match u
    case Byte => ""
    case Kib => "K"
    case Mib => "M"
    case Gib => "G"
    case Tib => "T"
  }

  /** `size_argument`: a whole number of the unit, rounded up. */
  function SizeArgument(bytes: nat): string {
    var u := QuotedIn(bytes);
    Decimal(CeilDiv(bytes, Worth(u))) + Suffix(u)
  }

  function Upper(c: char): char {
    if 'a' <= c <= 'z' then (c as int - 32) as char else c
  }

  function Uppercase(s: string): string {
    if s == [] then "" else [Upper(s[0])] + Uppercase(s[1..])
  }

  function Multiplier(suffix: string): Option<Unit> {
    if suffix in {"", "B"} then Some(Byte)
    else if suffix in {"K", "KB", "KIB"} then Some(Kib)
    else if suffix in {"M", "MB", "MIB"} then Some(Mib)
    else if suffix in {"G", "GB", "GIB"} then Some(Gib)
    else if suffix in {"T", "TB", "TIB"} then Some(Tib)
    else None
  }

  /** `parse_size`. */
  function ParseSize(text: string): Option<u64> {
    var t := Trim(text);
    var k := DigitsEnd(t);
    if k == 0 then None
    else
      match (ParseU64(t[..k]), Multiplier(Uppercase(Trim(t[k..]))))
      case (Some(n), Some(u)) => if n * Worth(u) <= U64_MAX then Some(n * Worth(u)) else None
      case _ => None
  }

  /** What the argument stands for. */
  function QuotedBytes(bytes: nat): nat {
    CeilDiv(bytes, Worth(QuotedIn(bytes))) * Worth(QuotedIn(bytes))
  }

  lemma SuffixReads(u: Unit)
    ensures Multiplier(Uppercase(Trim(Suffix(u)))) == Some(u) && |Suffix(u)| <= 1
    ensures Suffix(u) != "" ==> !IsDigit(Suffix(u)[0]) && !IsSpace(Suffix(u)[0])
  {
    var s := Suffix(u);
    TrimPadded("", s);
    assert "" + s == s;
    if s != [] {
      assert s[1..] == [] && Uppercase(s) == [Upper(s[0])] + Uppercase(s[1..]) == s;
    }
  }

  /** The argument read back is the price rounded up: never below it, less than
      one unit above, and refused exactly when the rounding leaves 64 bits. */
  lemma ArgumentReadsBack(bytes: u64)
    ensures bytes <= QuotedBytes(bytes) < bytes + Worth(QuotedIn(bytes))
    ensures ParseSize(SizeArgument(bytes)) == if QuotedBytes(bytes) <= U64_MAX then Some(QuotedBytes(bytes)) else None
  {
    var u := QuotedIn(bytes);
    var count := CeilDiv(bytes, Worth(u));
    CeilDivBounds(bytes, Worth(u));
    ArgumentParses(count, u);
  }

  lemma ArgumentParses(count: u64, u: Unit)
    ensures ParseSize(Decimal(count) + Suffix(u))
            == if count * Worth(u) <= U64_MAX then Some(count * Worth(u)) else None
  {
    hide Decimal, Suffix, ParseU64, Multiplier, Uppercase, Trim, Worth;
    SuffixReads(u);
    ArgumentParts(count, u);
    ParseOfDecimal(count);
  }

  lemma ArgumentParts(count: u64, u: Unit)
    ensures var d, s := Decimal(count), Decimal(count) + Suffix(u);
            Trim(s) == s && DigitsEnd(s) == |d| && s[..|d|] == d && s[|d|..] == Suffix(u)
  {
    var d, s := Decimal(count), Decimal(count) + Suffix(u);
    SuffixReads(u);
    DecimalIsWord(count);
    hide Decimal, Suffix, Trim, IsSpace, IsDigit;
    assert Tight(s);
    TrimPadded("", s);
    assert "" + s == s;
    assert s[..|d|] == d && s[|d|..] == Suffix(u);
    DigitsEndIs(s, |d|);
  }

  // ---------------------------------------------------- written out

  /** What is shown: whole bytes below 1 KiB; from there on the largest unit that
      fits, with one decimal, the count rounded down to a tenth. */
  lemma FormattedMeans(n: u64) returns (tenths: nat)
    ensures n < 1024 ==> FormatSize(n) == Decimal(n) + " B"
    ensures 1024 <= n < 1_048_576 ==> IsShown(n, tenths, 1024, "KiB")
    ensures 1_048_576 <= n < 1_073_741_824 ==> IsShown(n, tenths, 1_048_576, "MiB")
    ensures 1_073_741_824 <= n < 1_099_511_627_776 ==> IsShown(n, tenths, 1_073_741_824, "GiB")
    ensures 1_099_511_627_776 <= n ==> IsShown(n, tenths, 1_099_511_627_776, "TiB")
  {
    tenths := TenthsShown(n);
    hide IsShown, Decimal;
  }

  lemma TenthsShown(n: u64) returns (tenths: nat)
    ensures !ShownIn(n).Byte? ==> IsShown(n, tenths, Worth(ShownIn(n)), UnitName(ShownIn(n)))
  {
    hide Decimal, UnitName, ShownIn, Worth;
    var unit := Worth(ShownIn(n));
    assert unit > 0 by {
      SomeWorth(ShownIn(n));
    }
    var q, t := n / unit, Tenths(n, unit);
    TenthsBelowTen(n % unit, unit);
    tenths := 10 * q + t;
    TenthsSplit(n, unit, q, t);
  }

  lemma SomeWorth(u: Unit)
    ensures Worth(u) > 0
  {
  }

  /** So many tenths of the unit, rounded down, with its name. */
  predicate IsShown(n: u64, tenths: nat, unit: nat, name: string) {
    FormatSize(n) == Decimal(tenths / 10) + "." + Decimal(tenths % 10) + " " + name
    && tenths * unit <= 10 * n < (tenths + 1) * unit
  }

  lemma TenthsBelowTen(r: nat, unit: nat)
    requires r < unit
    ensures r * 10 / unit < 10
  {
    Division(r * 10, unit);
    if r * 10 / unit >= 10 {
      MulMono(10, r * 10 / unit, unit);
    }
  }

  lemma TenthsSplit(n: nat, unit: nat, q: nat, t: nat)
    requires unit > 0 && q == n / unit && t == n % unit * 10 / unit && t < 10
    ensures (10 * q + t) / 10 == q && (10 * q + t) % 10 == t
    ensures (10 * q + t) * unit <= 10 * n < (10 * q + t + 1) * unit
  {
    Division(n, unit);
    Division(n % unit * 10, unit);
    assert (10 * q + t) * unit == 10 * (q * unit) + t * unit;
    assert (10 * q + t + 1) * unit == 10 * (q * unit) + t * unit + unit;
  }

  /** What the copy needs: the programs, or 45 MiB when they are unknown, and the
      content, if the status says it, held to 64 bits. */
  lemma RoomMeans(programs: Option<u64>, content: Option<u64>, free: Option<u64>)
    ensures var asked := (if programs.Some? then programs.value else 47_185_920)
                         + (if content.Some? then content.value else 0);
            var needed := if asked <= 0xFFFF_FFFF_FFFF_FFFF then asked else 0xFFFF_FFFF_FFFF_FFFF;
            RoomFor(programs, content, free)
            == if free.None? then CannotSay(needed) else if needed <= free.value then Enough(needed)
               else TooLittle(needed)
  {
  }

  /** The letters of a name, in either case. */
  predicate Spelled(s: string, name: string) {
    |s| == |name|
    && forall i :: 0 <= i < |s| ==> s[i] == name[i] || ('A' <= name[i] <= 'Z' && s[i] as int == name[i] as int + 32)
  }

  /** The units that can be typed, and what each is worth. */
  predicate TypedUnit(s: string, worth: nat) {
    ((s == "" || Spelled(s, "B")) && worth == 1)
    || ((Spelled(s, "K") || Spelled(s, "KB") || Spelled(s, "KIB")) && worth == 1024)
    || ((Spelled(s, "M") || Spelled(s, "MB") || Spelled(s, "MIB")) && worth == 1_048_576)
    || ((Spelled(s, "G") || Spelled(s, "GB") || Spelled(s, "GIB")) && worth == 1_073_741_824)
    || ((Spelled(s, "T") || Spelled(s, "TB") || Spelled(s, "TIB")) && worth == 1_099_511_627_776)
  }

  lemma {:induction false} UppercaseAt(s: string)
    ensures |Uppercase(s)| == |s| && forall i :: 0 <= i < |s| ==> Uppercase(s)[i] == Upper(s[i])
  {
    if s != [] {
      UppercaseAt(s[1..]);
      assert forall i :: 1 <= i < |s| ==> Uppercase(s)[i] == Uppercase(s[1..])[i - 1];
    }
  }

  lemma SpelledMeans(s: string, name: string)
    requires forall i :: 0 <= i < |name| ==> 'A' <= name[i] <= 'Z'
    ensures Spelled(s, name) <==> Uppercase(s) == name
  {
    UppercaseAt(s);
    hide Uppercase;
    if Spelled(s, name) {
      forall i | 0 <= i < |s| ensures Uppercase(s)[i] == name[i] {
        assert Uppercase(s)[i] == Upper(s[i]);
      }
    }
    if Uppercase(s) == name {
      forall i | 0 <= i < |s| ensures s[i] == name[i] || s[i] as int == name[i] as int + 32 {
        assert Uppercase(s)[i] == Upper(s[i]);
      }
    }
  }

  lemma MultiplierMeans(u: string, worth: nat)
    ensures Multiplier(u).Some? && Worth(Multiplier(u).value) == worth
            <==> ((u == "" || u == "B") && worth == 1)
                 || ((u == "K" || u == "KB" || u == "KIB") && worth == 1024)
                 || ((u == "M" || u == "MB" || u == "MIB") && worth == 1_048_576)
                 || ((u == "G" || u == "GB" || u == "GIB") && worth == 1_073_741_824)
                 || ((u == "T" || u == "TB" || u == "TIB") && worth == 1_099_511_627_776)
  {
  }

  lemma TypedUnitMeans(s: string, worth: nat)
    ensures TypedUnit(s, worth)
            <==> Multiplier(Uppercase(s)).Some? && Worth(Multiplier(Uppercase(s)).value) == worth
  {
    hide Spelled, Uppercase, Multiplier, Worth;
    UppercaseAt(s);
    SpelledMeans(s, "B");
    SpelledMeans(s, "K");
    SpelledMeans(s, "KB");
    SpelledMeans(s, "KIB");
    SpelledMeans(s, "M");
    SpelledMeans(s, "MB");
    SpelledMeans(s, "MIB");
    SpelledMeans(s, "G");
    SpelledMeans(s, "GB");
    SpelledMeans(s, "GIB");
    SpelledMeans(s, "T");
    SpelledMeans(s, "TB");
    SpelledMeans(s, "TIB");
    MultiplierMeans(Uppercase(s), worth);
  }

  /** What a typed size is, for every text: digits, then a unit in either case, their
      product if it fits in 64 bits. */
  lemma TypedMeans(text: string, bytes: u64)
    ensures ParseSize(text) == Some(bytes) <==> exists k: nat, worth: nat :: Typed(Trim(text), k, worth, bytes)
  {
    hide ParseU64, Trim, TypedUnit, Multiplier, Uppercase, Worth;
    var t := Trim(text);
    var at := DigitsEnd(t);
    if k: nat, worth: nat :| Typed(t, k, worth, bytes) {
      DigitsEndIs(t, k);
      TypedUnitMeans(Trim(t[k..]), worth);
    }
    if ParseSize(text) == Some(bytes) {
      var worth := Worth(Multiplier(Uppercase(Trim(t[at..]))).value);
      TypedUnitMeans(Trim(t[at..]), worth);
      assert Typed(t, at, worth, bytes);
    }
  }

  predicate Typed(t: string, k: nat, worth: nat, bytes: u64) {
    0 < k <= |t| && AllDigits(t[..k]) && (k < |t| ==> !IsDigit(t[k]))
    && TypedUnit(Trim(t[k..]), worth) && ParseU64(t[..k]).Some? && ParseU64(t[..k]).value * worth == bytes
  }
}
