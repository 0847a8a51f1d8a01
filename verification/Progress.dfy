/** The one-line progress record of a background copy, written and read back:
    `crates/itsanas-cli/src/copy_to_key.rs`. */
module Progress {
  import opened Text
  import opened Utf8

  // --------------------------------------------------- JSON strings

  /** One character inside the quotes, section 7 of RFC 8259. */
  function Escaped(c: char): string {
    if c == '"' then "\\\""
    else if c == '\\' then "\\\\"
    else if c == '\n' then "\\n"
    else if c == '\r' then "\\r"
    else if c == '\t' then "\\t"
    else if c as int < 0x20 then "\\u00" + [HexDigit(c as int / 16), HexDigit(c as int % 16)]
    else [c]
  }

  function EscapedAll(s: string): string {
    if s == [] then "" else EscapedAll(s[..|s| - 1]) + Escaped(s[|s| - 1])
  }

  function Quoted(s: string): string {
    "\"" + EscapedAll(s) + "\""
  }

  /** `json_string`. */
  method JsonString(text: string) returns (out: string)
    ensures out == Quoted(text)
  {
    out := "\"";
    for i := 0 to |text|
      invariant out == "\"" + EscapedAll(text[..i])
    {
      hide Escaped;
      assert text[..i + 1][..|text[..i + 1]| - 1] == text[..i];
      AppendAssociates("\"", EscapedAll(text[..i]), Escaped(text[i]));
      out := out + Escaped(text[i]);
    }
    assert text[..|text|] == text;
    out := out + "\"";
  }

  function HexNumber(s: string): Option<nat> {
    if s == [] then Some(0)
    else
      match (HexNumber(s[..|s| - 1]), HexValue(s[|s| - 1]))
      case (Some(high), Some(low)) => Some(16 * high + low)
      case _ => None
  }

  /** `u32::from_str_radix(_, 16)` on at most four characters. */
  function FromHex(s: string): Option<nat> {
    var digits := if |s| > 0 && s[0] == '+' then s[1..] else s;
    if digits == [] then None else HexNumber(digits)
  }

  /** `char::from_u32`. */
  function CharOf(n: nat): Option<char> {
    if IsScalar(n) then Some(n as char) else None
  }

  /** What the next characters stand for, and how many they are; a closing quote
      is `Close`. */
  datatype Token = Bad | Close | Char(c: char, taken: nat)

  function Next(t: string): (r: Token)
    ensures r.Close? ==> t != []
    ensures r.Char? ==> 1 <= r.taken <= |t|
  {
    if t == [] then Bad
    else if t[0] == '"' then Close
    else if t[0] != '\\' then Char(t[0], 1)
    else if |t| < 2 then Bad
    else if t[1] == 'n' then Char('\n', 2)
    else if t[1] == 'r' then Char('\r', 2)
    else if t[1] == 't' then Char('\t', 2)
    else if t[1] == 'u' then
      var end := if |t| < 6 then |t| else 6;
      match FromHex(t[2..end])
      case None => Bad
      case Some(n) => (match CharOf(n) case None => Bad case Some(c) => Char(c, end))
    else Char(t[1], 2)
  }

  /** The text up to the closing quote, and what follows it. */
  function Unquoted(t: string): Option<(string, string)>
    decreases |t|
  {
    match Next(t)
    case Bad => None
    case Close => Some(("", t[1..]))
    case Char(c, k) =>
      match Unquoted(t[k..])
      case None => None
      case Some((s, rest)) => Some(([c] + s, rest))
  }

  function ReadString(text: string): Option<(string, string)> {
    if text != [] && text[0] == '"' then Unquoted(text[1..]) else None
  }

  /** `read_json_string`. */
  method ReadJsonString(text: string) returns (r: Option<(string, string)>)
    ensures r == ReadString(text)
  {
    if text == [] || text[0] != '"' {
      return None;
    }
    var out, left := "", text[1..];
    assert Unquoted(left).Some? ==> "" + Unquoted(left).value.0 == Unquoted(left).value.0;
    while true
      invariant Unquoted(text[1..])
             == (match Unquoted(left) case None => None case Some((s, rest)) => Some((out + s, rest)))
      decreases |left|
    {
      match Next(left) {
        case Bad => return None;
        case Close =>
          assert out + "" == out;
          return Some((out, left[1..]));
        case Char(c, k) =>
          Pushed(out, c, left[k..]);
          out, left := out + [c], left[k..];
      }
    }
  }

  lemma Pushed(out: string, c: char, left: string)
    ensures Unquoted(left).Some? ==> (out + [c]) + Unquoted(left).value.0 == out + ([c] + Unquoted(left).value.0)
  {
  }

  // ------------------------------------------------------ round trip

  lemma EscapedIsOneToken(c: char, rest: string)
    ensures Next(Escaped(c) + rest) == Char(c, |Escaped(c)|)
    ensures (Escaped(c) + rest)[|Escaped(c)|..] == rest
  {
    var t := Escaped(c) + rest;
    if c as int < 0x20 && c != '\n' && c != '\r' && c != '\t' {
      HexReads(c as int);
      assert t[2..6] == "00" + [HexDigit(c as int / 16), HexDigit(c as int % 16)];
    }
  }

  lemma HexReads(n: nat)
    requires n < 0x20
    ensures FromHex("00" + [HexDigit(n / 16), HexDigit(n % 16)]) == Some(n)
  {
    var a, b := HexDigit(n / 16), HexDigit(n % 16);
    HexOneMore("", '0');
    HexOneMore("0", '0');
    HexOneMore("00", a);
    HexOneMore("00" + [a], b);
    assert "" + "0" == "0" && "0" + "0" == "00" && "00" + [a] + [b] == "00" + [a, b];
  }

  lemma HexOneMore(s: string, c: char)
    requires HexNumber(s).Some? && HexValue(c).Some?
    ensures HexNumber(s + [c]) == Some(16 * HexNumber(s).value + HexValue(c).value)
  {
    assert (s + [c])[..|s + [c]| - 1] == s;
  }

  lemma {:induction false} EscapedAllFront(s: string)
    requires s != []
    ensures EscapedAll(s) == Escaped(s[0]) + EscapedAll(s[1..])
  {
    if |s| == 1 {
      assert s[..0] == [] && s[1..] == [];
    } else {
      var most := s[..|s| - 1];
      EscapedAllFront(most);
      assert most[1..] == s[1..][..|s[1..]| - 1];
      AppendAssociates(Escaped(s[0]), EscapedAll(most[1..]), Escaped(s[|s| - 1]));
    }
  }

  lemma {:induction false} UnquotedOfEscaped(s: string, rest: string)
    ensures Unquoted(EscapedAll(s) + ("\"" + rest)) == Some((s, rest))
  {
    var tail := "\"" + rest;
    if s == [] {
      assert EscapedAll(s) + tail == tail && tail[1..] == rest;
    } else {
      EscapedAllFront(s);
      AppendAssociates(Escaped(s[0]), EscapedAll(s[1..]), tail);
      EscapedIsOneToken(s[0], EscapedAll(s[1..]) + tail);
      UnquotedOfEscaped(s[1..], rest);
      assert [s[0]] + s[1..] == s;
    }
  }

  /** What is written, followed by any text, reads back as exactly the string and
      that text: for every string, quotes, backslashes and control characters
      included. */
  lemma StringRoundTrip(s: string, rest: string)
    ensures ReadString(Quoted(s) + rest) == Some((s, rest))
  {
    var text := Quoted(s) + rest;
    assert text[1..] == EscapedAll(s) + ("\"" + rest);
    UnquotedOfEscaped(s, rest);
  }

  /** No control character is left as it is, and so no line end. */
  lemma {:induction false} EscapedHasNoControl(s: string)
    ensures forall i :: 0 <= i < |EscapedAll(s)| ==> EscapedAll(s)[i] as int >= 0x20
  {
    if s != [] {
      EscapedHasNoControl(s[..|s| - 1]);
      var c := s[|s| - 1];
      assert forall i :: 0 <= i < |Escaped(c)| ==> Escaped(c)[i] as int >= 0x20;
    }
  }

  // ------------------------------------------------------- the record

  datatype Record = Record(step: string, done: bool, said: string, error: Option<string>)

  const STEP := "{\"step\":"
  const DONE := ",\"done\":"
  const SAID := ",\"said\":"
  const ERROR := ",\"error\":"

  function ErrorText(error: Option<string>): string {
    match error
    case None => "null"
    case Some(e) => Quoted(e)
  }

  function DoneText(done: bool): string {
    if done then "true" else "false"
  }

  /** The line but for its end: what `Status::write` prints. */
  function RecordText(r: Record): string {
    STEP + (Quoted(r.step) + (DONE + (DoneText(r.done) + (SAID + (Quoted(r.said)
    + (ERROR + (ErrorText(r.error) + "}")))))))
  }

  function Written(r: Record): string {
    RecordText(r) + "\n"
  }

  function ReadError(text: string): Option<(Option<string>, string)> {
    match StripPrefix(text, "null")
    case Some(rest) => Some((None, rest))
    case None =>
      match ReadString(text)
      case None => None
      case Some((e, rest)) => Some((Some(e), rest))
  }

  function ReadDone(text: string): Option<(bool, string)> {
    match StripPrefix(text, "true")
    case Some(rest) => Some((true, rest))
    case None =>
      match StripPrefix(text, "false")
      case None => None
      case Some(rest) => Some((false, rest))
  }

  /** A string after a fixed text. */
  function ReadField(text: string, before: string): Option<(string, string)> {
    match StripPrefix(text, before)
    case None => None
    case Some(rest) => ReadString(rest)
  }

  /** The fields of a record in their order, and what follows the last. */
  function ReadRecord(text: string): Option<(Record, string)> {
    match ReadField(text, STEP)
    case None => None
    case Some((step, afterStep)) =>
      match StripPrefix(afterStep, DONE)
      case None => None
      case Some(atDone) =>
        match ReadDone(atDone)
        case None => None
        case Some((done, afterDone)) =>
          match ReadField(afterDone, SAID)
          case None => None
          case Some((said, afterSaid)) =>
            match StripPrefix(afterSaid, ERROR)
            case None => None
            case Some(atError) =>
              match ReadError(atError)
              case None => None
              case Some((error, end)) => Some((Record(step, done, said, error), end))
  }

  /** `parse_progress`. */
  function ParseProgress(text: string): Option<Record> {
    match ReadRecord(Trim(text))
    case None => None
    case Some((r, end)) => if end == "}" then Some(r) else None
  }

  const MAX_PROGRESS_BYTES: nat := 64 * 1024

  /** `progress`, on the bytes of the file: those within the limit, if they are a
      text, read as a record. */
  function ReadProgress(bytes: seq<byte>): Option<Record> {
    var taken := if |bytes| > MAX_PROGRESS_BYTES then bytes[..MAX_PROGRESS_BYTES] else bytes;
    match Decode(taken)
    case None => None
    case Some(text) => ParseProgress(text)
  }

  lemma StripOfAppended(a: string, b: string)
    ensures StripPrefix(a + b, a) == Some(b)
  {
    assert (a + b)[|a|..] == b && (a + b)[..|a|] == a;
  }

  lemma FieldReads(before: string, s: string, rest: string)
    ensures ReadField(before + (Quoted(s) + rest), before) == Some((s, rest))
  {
    StripOfAppended(before, Quoted(s) + rest);
    StringRoundTrip(s, rest);
  }

  lemma DoneReads(done: bool, rest: string)
    ensures ReadDone(DoneText(done) + rest) == Some((done, rest))
  {
    StripOfAppended(DoneText(done), rest);
    assert done || (DoneText(done) + rest)[0] == 'f';
  }

  lemma ErrorReads(error: Option<string>, rest: string)
    ensures ReadError(ErrorText(error) + rest) == Some((error, rest))
  {
    match error
    case None => StripOfAppended("null", rest);
    case Some(e) =>
      assert (Quoted(e) + rest)[0] == '"';
      StringRoundTrip(e, rest);
  }

  lemma RecordIsTight(r: Record)
    ensures Trim(Written(r)) == RecordText(r) == Trim(RecordText(r))
  {
    var t := RecordText(r);
    assert t[0] == '{' && t[|t| - 1] == '}';
    var w := Written(r);
    assert w[0] == '{' && TrimStart(w) == w && TrimStart(t) == t;
    assert w[..|w| - 1] == t;
    assert TrimEnd(w) == TrimEnd(t) == t;
  }

  lemma RecordReads(r: Record)
    ensures ReadRecord(RecordText(r)) == Some((r, "}"))
  {
    hide Quoted, ReadString, DoneText, ErrorText, ReadDone, ReadError, ReadField, StripPrefix;
    var t6 := ErrorText(r.error) + "}";
    var t5 := Quoted(r.said) + (ERROR + t6);
    var t4 := DoneText(r.done) + (SAID + t5);
    FieldReads(STEP, r.step, DONE + t4);
    StripOfAppended(DONE, t4);
    DoneReads(r.done, SAID + t5);
    FieldReads(SAID, r.said, ERROR + t6);
    StripOfAppended(ERROR, t6);
    ErrorReads(r.error, "}");
  }

  /** What is written is read back: the same step, done, said and error. */
  lemma ProgressRoundTrip(r: Record)
    ensures ParseProgress(Written(r)) == Some(r)
  {
    RecordIsTight(r);
    RecordReads(r);
  }

  // ------------------------------------------------ a record cut short

  lemma StripLonger(t: string, p: string, x: string)
    requires StripPrefix(t, p).Some?
    ensures StripPrefix(t + x, p) == Some(StripPrefix(t, p).value + x)
  {
    assert (t + x)[..|p|] == t[..|p|] && (t + x)[|p|..] == t[|p|..] + x;
  }

  /** A string read to its closing quote reads the same whatever follows. */
  lemma {:induction false} UnquotedLonger(t: string, x: string)
    requires Unquoted(t).Some?
    ensures var (s, rest) := Unquoted(t).value; Unquoted(t + x) == Some((s, rest + x))
    decreases |t|
  {
    hide Next;
    match Next(t) {
      case Close =>
        NextLonger(t, x);
        assert (t + x)[1..] == t[1..] + x;
      case Char(c, k) =>
        SomethingAfter(t, k);
        NextLonger(t, x);
        UnquotedLonger(t[k..], x);
        assert (t + x)[k..] == t[k..] + x;
    }
  }

  lemma SomethingAfter(t: string, k: nat)
    requires k <= |t| && Unquoted(t[k..]).Some?
    ensures k < |t|
  {
  }

  lemma NextLonger(t: string, x: string)
    requires !Next(t).Bad? && (Next(t).Char? ==> Next(t).taken < |t|)
    ensures Next(t + x) == Next(t)
  {
    if |t| >= 6 {
      assert (t + x)[2..6] == t[2..6];
    }
  }

  lemma StringLonger(t: string, x: string)
    requires ReadString(t).Some?
    ensures var (s, rest) := ReadString(t).value; ReadString(t + x) == Some((s, rest + x))
  {
    assert (t + x)[1..] == t[1..] + x;
    UnquotedLonger(t[1..], x);
  }

  lemma FieldLonger(t: string, before: string, x: string)
    requires ReadField(t, before).Some?
    ensures var (s, rest) := ReadField(t, before).value; ReadField(t + x, before) == Some((s, rest + x))
  {
    StripLonger(t, before, x);
    StringLonger(StripPrefix(t, before).value, x);
  }

  lemma DoneLonger(t: string, x: string)
    requires ReadDone(t).Some?
    ensures var (done, rest) := ReadDone(t).value; ReadDone(t + x) == Some((done, rest + x))
  {
    if StripPrefix(t, "true").Some? {
      StripLonger(t, "true", x);
    } else {
      StripLonger(t, "false", x);
      assert (t + x)[0] == t[0] == 'f';
    }
  }

  lemma ErrorLonger(t: string, x: string)
    requires ReadError(t).Some?
    ensures var (error, rest) := ReadError(t).value; ReadError(t + x) == Some((error, rest + x))
  {
    if StripPrefix(t, "null").Some? {
      StripLonger(t, "null", x);
    } else {
      StringLonger(t, x);
      assert (t + x)[0] == t[0] == '"';
    }
  }

  lemma RecordLonger(t: string, x: string)
    requires ReadRecord(t).Some?
    ensures var (r, end) := ReadRecord(t).value; ReadRecord(t + x) == Some((r, end + x))
  {
    hide ReadField, ReadDone, ReadError, StripPrefix;
    FieldLonger(t, STEP, x);
    var afterStep := ReadField(t, STEP).value.1;
    StripLonger(afterStep, DONE, x);
    var atDone := StripPrefix(afterStep, DONE).value;
    DoneLonger(atDone, x);
    var afterDone := ReadDone(atDone).value.1;
    FieldLonger(afterDone, SAID, x);
    var afterSaid := ReadField(afterDone, SAID).value.1;
    StripLonger(afterSaid, ERROR, x);
    ErrorLonger(StripPrefix(afterSaid, ERROR).value, x);
  }

  /** No part of a record short of all of it reads as a record. */
  lemma PartIsNoRecord(r: Record, part: string)
    requires part < RecordText(r)
    ensures ParseProgress(part) == None
  {
    var t := RecordText(r);
    TrimmedPart(part, t);
    var short := Trim(part);
    var x := t[|short|..];
    assert t == short + x;
    RecordReads(r);
    hide ReadRecord, RecordText;
    if ReadRecord(short).Some? {
      RecordLonger(short, x);
      assert |ReadRecord(short).value.1 + x| == 1;
    }
  }

  lemma TrimmedPart(part: string, t: string)
    requires part < t && t[0] == '{'
    ensures Trim(part) <= part && Trim(part) < t
  {
    if part != [] {
      assert part[0] == '{' && TrimStart(part) == part;
      TrimEndIsPart(part);
    }
  }

  lemma {:induction false} TrimEndIsPart(s: string)
    ensures TrimEnd(s) <= s
  {
    if s != [] {
      TrimEndIsPart(s[..|s| - 1]);
    }
  }

  /** The file read back is the record exactly when all of it but its line end is
      within 64 KiB. A longer one reads as no record at all, never as another. */
  lemma ProgressSurvivesIffItFits(r: Record)
    ensures ReadProgress(Encode(Written(r)))
         == if |Encode(RecordText(r))| <= MAX_PROGRESS_BYTES then Some(r) else None
  {
    hide Encode, Decode, RecordText, ParseProgress;
    var text, bytes := RecordText(r), Encode(Written(r));
    EncodeAppend(text, "\n");
    EncodeAscii("\n");
    assert bytes == Encode(text) + Encode("\n") && |bytes| == |Encode(text)| + 1;
    if |bytes| <= MAX_PROGRESS_BYTES {
      DecodeOfEncode(Written(r));
      ProgressRoundTrip(r);
    } else if |Encode(text)| == MAX_PROGRESS_BYTES {
      assert bytes[..MAX_PROGRESS_BYTES] == Encode(text);
      DecodeOfEncode(text);
      TextReads(r);
    } else {
      var taken := bytes[..MAX_PROGRESS_BYTES];
      assert taken == Encode(text)[..MAX_PROGRESS_BYTES];
      if Decode(taken).Some? {
        var part := Decode(taken).value;
        EncodeOfDecode(taken);
        PartOfText(part, text);
        PartIsNoRecord(r, part);
      }
    }
  }

  lemma TextReads(r: Record)
    ensures ParseProgress(RecordText(r)) == Some(r)
  {
    RecordIsTight(r);
    RecordReads(r);
  }

  lemma EncodeFirst(s: string)
    requires s != []
    ensures Encode(s) == EncodeChar(s[0]) + Encode(s[1..])
  {
  }

  lemma SameFirst(part: string, text: string)
    requires part != [] && text != [] && Encode(part) <= Encode(text)
    ensures part[0] == text[0] && Encode(part[1..]) <= Encode(text[1..])
  {
    EncodeFirst(part);
    EncodeFirst(text);
    hide DecodeChar, EncodeChar, Encode;
    SameFrontChar(part[0], Encode(part[1..]), text[0], Encode(text[1..]));
  }

  lemma SameFrontChar(a: char, mine: seq<byte>, b: char, yours: seq<byte>)
    requires EncodeChar(a) + mine <= EncodeChar(b) + yours
    ensures a == b && mine <= yours
  {
    hide DecodeChar, EncodeChar;
    var first, whole := EncodeChar(a), EncodeChar(b) + yours;
    var rest := whole[|first|..];
    assert whole == first + rest;
    DecodeOfEncodeChar(b, yours);
    DecodeOfEncodeChar(a, rest);
    assert yours == whole[|first|..] && mine == (first + mine)[|first|..];
  }

  /** Fewer of a text's bytes, if they are a text, are the front of it. */
  lemma {:induction false} PartOfText(part: string, text: string)
    requires Encode(part) < Encode(text)
    ensures part < text
  {
    if part != [] {
      SameFirst(part, text);
      hide EncodeChar;
      PartOfText(part[1..], text[1..]);
      assert part == [part[0]] + part[1..] && text == [text[0]] + text[1..];
    }
  }

  /** The record is one line: its only line end is its last character. */
  lemma WrittenIsOneLine(r: Record)
    ensures '\n' !in RecordText(r)
  {
    QuotedIsOneLine(r.step);
    QuotedIsOneLine(r.said);
    if r.error.Some? {
      QuotedIsOneLine(r.error.value);
    }
    hide Quoted;
    var t6 := ErrorText(r.error) + "}";
    assert '\n' !in t6;
    var t5 := Quoted(r.said) + (ERROR + t6);
    assert '\n' !in ERROR && '\n' !in t5;
    var t4 := DoneText(r.done) + (SAID + t5);
    assert '\n' !in SAID && '\n' !in t4;
    assert '\n' !in DONE && '\n' !in STEP;
  }

  lemma QuotedIsOneLine(s: string)
    ensures '\n' !in Quoted(s)
  {
    EscapedHasNoControl(s);
  }

  /** A record too long for the file: one that says so many letters. */
  lemma LongRecordIsLost(said: string)
    requires |said| == MAX_PROGRESS_BYTES && forall i :: 0 <= i < |said| ==> said[i] == 'x'
    ensures ReadProgress(Encode(Written(Record("copying", false, said, None)))) == None
  {
    var r := Record("copying", false, said, None);
    ProgressSurvivesIffItFits(r);
    PlainIsItself(said);
    assert |RecordText(r)| > |said|;
    EncodedIsNoShorter(RecordText(r));
    hide Encode, RecordText;
  }

  lemma {:induction false} PlainIsItself(s: string)
    requires forall i :: 0 <= i < |s| ==> s[i] == 'x'
    ensures EscapedAll(s) == s
  {
    if s != [] {
      var most := s[..|s| - 1];
      PlainIsItself(most);
      assert s == most + "x" && Escaped('x') == "x";
      assert EscapedAll(s) == EscapedAll(most) + Escaped('x');
    }
  }

  lemma {:induction false} EncodedIsNoShorter(s: string)
    ensures |s| <= |Encode(s)|
  {
    if s != [] {
      EncodedIsNoShorter(s[1..]);
    }
  }

  // --------------------------------------------------- the standard's view

  /** How section 7 of RFC 8259 lets a character be written in a string: as itself,
      by one of the eight short forms, or by its number. The characters past
      U+FFFF, which it writes as two numbers, are written here as themselves. */
  predicate Spells(t: string, c: char) {
    (t == [c] && c != '"' && c != '\\' && c as int >= 0x20)
    || (t == "\\\"" && c == '"') || (t == "\\\\" && c == '\\') || (t == "\\/" && c == '/')
    || (t == "\\n" && c == '\n') || (t == "\\r" && c == '\r') || (t == "\\t" && c == '\t')
    || (t == "\\b" && c as int == 0x08) || (t == "\\f" && c as int == 0x0C)
    || (|t| == 6 && t[0] == '\\' && t[1] == 'u' && HexNumber(t[2..]) == Some(c as int))
  }

  /** What is written is always a spelling the standard allows, the shortest. */
  lemma EscapedSpells(c: char)
    ensures Spells(Escaped(c), c)
  {
    if c as int < 0x20 && c != '\n' && c != '\r' && c != '\t' {
      HexReads(c as int);
      assert Escaped(c)[2..] == "00" + [HexDigit(c as int / 16), HexDigit(c as int % 16)];
    }
  }

  lemma HexStartsPlain(s: string)
    requires s != [] && HexNumber(s).Some?
    ensures s[0] != '+'
  {
    HexPrefix(s, 1);
    assert s[..1] == [s[0]];
  }

  lemma {:induction false} HexPrefix(s: string, k: nat)
    requires k <= |s| && HexNumber(s).Some?
    ensures HexNumber(s[..k]).Some?
    decreases |s|
  {
    if k < |s| {
      HexPrefix(s[..|s| - 1], k);
      assert s[..|s| - 1][..k] == s[..k];
    } else {
      assert s[..k] == s;
    }
  }

  /** The reader takes each such spelling for its character, but for two: it knows
      neither the backspace nor the form feed, and reads their letters. */
  lemma SpellingReads(t: string, c: char, rest: string)
    requires Spells(t, c)
    ensures Next(t + rest).Char? && Next(t + rest).taken == |t|
    ensures Next(t + rest).c == c <==> t != "\\b" && t != "\\f"
  {
    var s := t + rest;
    assert t[0] == s[0] && (|t| > 1 ==> s[1] == t[1]);
    if |t| == 6 {
      assert s[2..6] == t[2..];
      HexStartsPlain(t[2..]);
    }
  }

  /** A whole string, character by character. */
  predicate SpelledBy(ts: seq<string>, s: string) {
    |ts| == |s| && forall i :: 0 <= i < |ts| ==> Spells(ts[i], s[i])
  }

  function Flat(ts: seq<string>): string {
    if ts == [] then "" else ts[0] + Flat(ts[1..])
  }

  /** So a string written by anyone as the standard lets is read, to its closing
      quote, and as what it says exactly when neither of the two is in it. */
  lemma {:induction false} StandardStringReads(ts: seq<string>, s: string, rest: string)
    requires SpelledBy(ts, s)
    ensures var r := ReadString("\"" + Flat(ts) + "\"" + rest);
            r.Some? && |r.value.0| == |s| && r.value.1 == rest
            && (r.value.0 == s <==> "\\b" !in ts && "\\f" !in ts)
  {
    hide Unquoted, SpelledBy, Flat;
    StandardTextReads(ts, s, rest);
    QuoteOff(Flat(ts), rest);
  }

  lemma QuoteOff(a: string, rest: string)
    ensures var text := "\"" + a + "\"" + rest; text != [] && text[0] == '"' && text[1..] == a + ("\"" + rest)
  {
  }

  lemma {:induction false} StandardTextReads(ts: seq<string>, s: string, rest: string)
    requires SpelledBy(ts, s)
    ensures var r := Unquoted(Flat(ts) + ("\"" + rest));
            r.Some? && |r.value.0| == |s| && r.value.1 == rest
            && (r.value.0 == s <==> "\\b" !in ts && "\\f" !in ts)
  {
    var tail := "\"" + rest;
    if ts == [] {
      assert Flat(ts) + tail == tail && tail[1..] == rest;
    } else {
      var after := Flat(ts[1..]) + tail;
      AppendAssociates(ts[0], Flat(ts[1..]), tail);
      assert Flat(ts) + tail == ts[0] + after && (ts[0] + after)[|ts[0]|..] == after;
      SpellingReads(ts[0], s[0], after);
      assert forall i :: 0 <= i < |ts[1..]| ==> Spells(ts[1..][i], s[1..][i]) by {
        assert forall i :: 0 <= i < |ts[1..]| ==> ts[1..][i] == ts[i + 1] && s[1..][i] == s[i + 1];
      }
      StandardTextReads(ts[1..], s[1..], rest);
      hide Spells, Next, Flat;
      FirstAndRest(ts, s, Unquoted(after).value.0, Next(ts[0] + after).c);
    }
  }

  lemma FirstAndRest(ts: seq<string>, s: string, read: string, c: char)
    requires ts != [] && s != []
    ensures [c] + read == s <==> c == s[0] && read == s[1..]
    ensures forall t :: t in ts <==> t == ts[0] || t in ts[1..]
  {
    if [c] + read == s {
      assert s[1..] == read;
    }
    assert s == [s[0]] + s[1..] && ts == [ts[0]] + ts[1..];
  }

  /** The line itself, field by field, with the standard's spelling of each text. */
  lemma RecordIs(r: Record)
    ensures Written(r)
            == "{\"step\":" + (("\"" + EscapedAll(r.step) + "\"")
               + (",\"done\":" + ((if r.done then "true" else "false")
               + (",\"said\":" + (("\"" + EscapedAll(r.said) + "\"")
               + (",\"error\":" + ((if r.error.Some? then "\"" + EscapedAll(r.error.value) + "\"" else "null")
               + "}"))))))) + "\n"
  {
    hide EscapedAll;
  }
}
