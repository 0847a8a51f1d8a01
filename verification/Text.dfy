/** The text primitives the program leans on, as Rust's standard library
    defines them: decimal numbers, white space, lines, words, prefixes. */
module Text {

  datatype Option<+T> = None | Some(value: T)

  const U64_MAX := 0xFFFF_FFFF_FFFF_FFFF
  type u64 = n: int | 0 <= n <= 0xFFFF_FFFF_FFFF_FFFF

  /** A number held to 64 bits. */
  function Saturated(n: nat): u64 {
    if n > U64_MAX then U64_MAX else n
  }

  // ------------------------------------------------------------ numbers

  predicate IsDigit(c: char) {
    '0' <= c <= '9'
  }

  predicate AllDigits(s: string) {
    forall i :: 0 <= i < |s| ==> IsDigit(s[i])
  }

  function DigitChar(d: nat): char
    requires d < 10
  {
    ('0' as int + d) as char
  }

  function DigitValue(c: char): nat
    requires IsDigit(c)
  {
    c as int - '0' as int
  }

  /** A whole number in decimal, no leading zero. */
  function Decimal(n: nat): (s: string)
    ensures |s| > 0 && AllDigits(s)
  {
    if n < 10 then [DigitChar(n)] else Decimal(n / 10) + [DigitChar(n % 10)]
  }

  /** The number a run of digits writes. */
  function Value(s: string): nat
    requires AllDigits(s)
  {
    if s == [] then 0 else 10 * Value(s[..|s| - 1]) + DigitValue(s[|s| - 1])
  }

  /** `str::parse::<u64>`: an optional plus sign, then digits, within range. */
  function ParseU64(s: string): Option<u64> {
    var digits := if |s| > 0 && s[0] == '+' then s[1..] else s;
    if digits == [] || !AllDigits(digits) || Value(digits) > U64_MAX then None
    else Some(Value(digits))
  }

  /** Where the leading digits end. */
  function DigitsEnd(s: string): (k: nat)
    ensures k <= |s| && AllDigits(s[..k]) && (k < |s| ==> !IsDigit(s[k]))
  {
    if s == [] || !IsDigit(s[0]) then 0
    else
      var k := DigitsEnd(s[1..]) + 1;
      assert s[..k] == [s[0]] + s[1..][..k - 1];
      k
  }

  lemma {:induction false} DigitsEndIs(s: string, k: nat)
    requires k <= |s| && AllDigits(s[..k]) && (k < |s| ==> !IsDigit(s[k]))
    ensures DigitsEnd(s) == k
  {
    if k > 0 {
      assert s[..k][0] == s[0];
      assert s[1..][..k - 1] == s[..k][1..];
      DigitsEndIs(s[1..], k - 1);
    }
  }

  lemma {:induction false} ValueOfDecimal(n: nat)
    ensures Value(Decimal(n)) == n
  {
    if n >= 10 {
      ValueOfDecimal(n / 10);
      var s := Decimal(n);
      assert s[..|s| - 1] == Decimal(n / 10);
    }
  }

  /** Every `u64` printed in decimal is read back as itself. */
  lemma ParseOfDecimal(n: u64)
    ensures ParseU64(Decimal(n)) == Some(n)
  {
    ValueOfDecimal(n);
    assert IsDigit(Decimal(n)[0]);
  }

  /** Printing is one to one: what is printed says which number it was. */
  lemma DecimalInjective(m: nat, n: nat)
    requires Decimal(m) == Decimal(n)
    ensures m == n
  {
    ValueOfDecimal(m);
    ValueOfDecimal(n);
  }

  function PowerOfTen(w: nat): nat {
    if w == 0 then 1 else 10 * PowerOfTen(w - 1)
  }

  lemma TenToTheTwenty()
    ensures PowerOfTen(20) > U64_MAX
  {
    assert PowerOfTen(4) == 10_000;
    assert PowerOfTen(8) == 10_000 * PowerOfTen(4);
    assert PowerOfTen(12) == 10_000 * PowerOfTen(8);
    assert PowerOfTen(16) == 10_000 * PowerOfTen(12);
    assert PowerOfTen(20) == 10_000 * PowerOfTen(16);
  }

  lemma {:induction false} DecimalWidth(n: nat, w: nat)
    requires w >= 1 && n < PowerOfTen(w)
    ensures |Decimal(n)| <= w
    decreases w
  {
    if n >= 10 {
      DecimalWidth(n / 10, w - 1);
    }
  }

  function Zeros(n: nat): string {
    if n == 0 then "" else "0" + Zeros(n - 1)
  }

  /** `{n:0w}`: decimal, zeros in front up to the width. */
  function Padded(n: nat, width: nat): string {
    var s := Decimal(n);
    if |s| >= width then s else Zeros(width - |s|) + s
  }

  lemma {:induction false} ZerosAddNothing(k: nat, s: string)
    requires AllDigits(s)
    ensures |Zeros(k)| == k && AllDigits(Zeros(k) + s) && Value(Zeros(k) + s) == Value(s)
    decreases k + |s|
  {
    if s == [] {
      if k > 0 {
        ZerosAddNothing(k - 1, []);
        ZerosEnd(k);
        assert Zeros(k) + [] == Zeros(k) && Zeros(k - 1) + [] == Zeros(k - 1);
        assert Zeros(k)[..|Zeros(k)| - 1] == Zeros(k - 1);
      } else {
        assert Zeros(0) + s == s;
      }
    } else {
      var t := s[..|s| - 1];
      ZerosAddNothing(k, t);
      assert (Zeros(k) + s)[..|Zeros(k) + s| - 1] == Zeros(k) + t;
      assert Zeros(k) + s == (Zeros(k) + t) + [s[|s| - 1]];
    }
  }

  lemma {:induction false} ZerosEnd(k: nat)
    requires k > 0
    ensures Zeros(k) == Zeros(k - 1) + "0"
  {
    if k > 1 {
      ZerosEnd(k - 1);
    }
  }

  /** A number that fits the width fills it exactly, and reads back as itself. */
  lemma PaddedReads(n: nat, width: nat)
    requires width >= 1 && n < PowerOfTen(width)
    ensures |Padded(n, width)| == width && AllDigits(Padded(n, width)) && Value(Padded(n, width)) == n
  {
    hide Decimal, Value, PowerOfTen, Zeros, AllDigits;
    DecimalWidth(n, width);
    ValueOfDecimal(n);
    ZerosAddNothing(width - |Decimal(n)|, Decimal(n));
  }

  lemma CancelFront(a: string, b: string, x: string, y: string)
    requires |a| == |b| && a + x == b + y
    ensures a == b && x == y
  {
    assert a == (a + x)[..|a|] && b == (b + y)[..|b|];
    assert x == (a + x)[|a|..] && y == (b + y)[|b|..];
  }

  /** `to_ascii_lowercase`. */
  function Lower(c: char): char {
    if 'A' <= c <= 'Z' then (c as int + 32) as char else c
  }

  // --------------------------------------------------------- hexadecimal

  function HexDigit(d: nat): char
    requires d < 16
  {
    if d < 10 then DigitChar(d) else ('a' as int + d - 10) as char
  }

  function HexValue(c: char): Option<nat> {
    if IsDigit(c) then Some(DigitValue(c))
    else if 'a' <= c <= 'f' then Some(c as int - 'a' as int + 10)
    else if 'A' <= c <= 'F' then Some(c as int - 'A' as int + 10)
    else None
  }

  // -------------------------------------------------------- white space

  /** `char::is_whitespace`: Unicode's White_Space property. */
  predicate IsSpace(c: char) {
    var n := c as int;
    9 <= n <= 13 || n == 0x20 || n == 0x85 || n == 0xA0 || n == 0x1680
    || 0x2000 <= n <= 0x200A || n == 0x2028 || n == 0x2029 || n == 0x202F
    || n == 0x205F || n == 0x3000
  }

  function TrimStart(s: string): string {
    if s != [] && IsSpace(s[0]) then TrimStart(s[1..]) else s
  }

  function TrimEnd(s: string): string {
    if s != [] && IsSpace(s[|s| - 1]) then TrimEnd(s[..|s| - 1]) else s
  }

  function Trim(s: string): string {
    TrimEnd(TrimStart(s))
  }

  /** No white space at either end, so trimming leaves it alone. */
  predicate Tight(s: string) {
    s == [] || (!IsSpace(s[0]) && !IsSpace(s[|s| - 1]))
  }

  lemma {:induction false} TrimStartSpaces(s: string, k: nat)
    requires k <= |s| && forall i :: 0 <= i < k ==> IsSpace(s[i])
    ensures TrimStart(s) == TrimStart(s[k..])
  {
    if k > 0 {
      TrimStartSpaces(s[1..], k - 1);
      assert s[1..][k - 1..] == s[k..];
    } else {
      assert s[0..] == s;
    }
  }

  /** Text with white space around it trims back to the text. */
  lemma TrimPadded(before: string, s: string)
    requires forall i :: 0 <= i < |before| ==> IsSpace(before[i])
    requires Tight(s)
    ensures Trim(before + s) == s
  {
    TrimStartSpaces(before + s, |before|);
    assert (before + s)[|before|..] == s;
  }

  // ------------------------------------------------------ finding, lines

  /** The first place `c` stands in `s`, or the length of `s`. */
  function Find(s: string, c: char): (k: nat)
    ensures k <= |s| && c !in s[..k]
    ensures k < |s| ==> s[k] == c
  {
    if s == [] || s[0] == c then 0
    else
      var k := Find(s[1..], c) + 1;
      assert s[..k] == [s[0]] + s[1..][..k - 1];
      k
  }

  lemma FindAppended(a: string, c: char, b: string)
    requires c !in a
    ensures Find(a + [c] + b, c) == |a|
  {
    var s := a + [c] + b;
    assert s[..|a|] == a && s[|a|] == c;
    assert forall i :: 0 <= i < |a| ==> s[i] == a[i] != c;
    assert forall k :: |a| < k <= |s| ==> s[|a|] in s[..k];
  }

  /** `str::strip_prefix`. */
  function StripPrefix(s: string, prefix: string): Option<string> {
    if prefix <= s then Some(s[|prefix|..]) else None
  }

  /** `str::split_once`: before and after the first `c`. */
  function SplitOnce(s: string, c: char): Option<(string, string)> {
    var k := Find(s, c);
    if k == |s| then None else Some((s[..k], s[k + 1..]))
  }

  lemma SplitOnceAppended(a: string, c: char, b: string)
    requires c !in a
    ensures SplitOnce(a + [c] + b, c) == Some((a, b))
  {
    FindAppended(a, c, b);
    var s := a + [c] + b;
    assert s[..|a|] == a && s[|a| + 1..] == b;
  }

  lemma AppendAssociates(a: string, b: string, c: string)
    ensures (a + b) + c == a + (b + c)
  {
  }

  function StripCr(s: string): string {
    if s != [] && s[|s| - 1] == '\r' then s[..|s| - 1] else s
  }

  /** `str::lines`: cut at every line feed, a carriage return before it dropped. */
  function Lines(s: string): seq<string> {
    if s == [] then []
    else
      var k := Find(s, '\n');
      if k == |s| then [s] else [StripCr(s[..k])] + Lines(s[k + 1..])
  }

  /** Ends where a line ends. */
  predicate WholeLines(s: string) {
    s == [] || s[|s| - 1] == '\n'
  }

  lemma LinesOfOne(line: string, rest: string)
    requires '\n' !in line && (line == [] || line[|line| - 1] != '\r')
    ensures Lines(line + "\n" + rest) == [line] + Lines(rest)
  {
    FindAppended(line, '\n', rest);
    var s := line + "\n" + rest;
    assert s[..|line|] == line && s[|line| + 1..] == rest;
  }

  lemma FirstLine(s: string, k: nat)
    requires k == Find(s, '\n') < |s|
    ensures Lines(s) == [StripCr(s[..k])] + Lines(s[k + 1..])
  {
  }

  /** Text cut at a line end reads as the lines of the two halves. */
  lemma {:induction false} LinesSplit(a: string, b: string)
    requires WholeLines(a)
    ensures Lines(a + b) == Lines(a) + Lines(b)
    decreases |a|, 1
  {
    if a == [] {
      assert a + b == b;
    } else {
      assert a[..|a|] == a && '\n' in a;
      LinesSplitAt(a, b, Find(a, '\n'));
    }
  }

  lemma {:induction false} LinesSplitAt(a: string, b: string, k: nat)
    requires WholeLines(a) && k == Find(a, '\n') < |a|
    ensures Lines(a + b) == Lines(a) + Lines(b)
    decreases |a|, 0
  {
    hide Lines, Find, StripCr;
    var rest := a[k + 1..];
    FirstLine(a, k);
    FindStays(a, b, k);
    FirstLine(a + b, k);
    LinesSplit(rest, b);
    var first := [StripCr(a[..k])];
    assert (first + Lines(rest)) + Lines(b) == first + (Lines(rest) + Lines(b));
  }

  /** What follows changes nothing of the first line. */
  lemma FindStays(a: string, b: string, k: nat)
    requires k == Find(a, '\n') < |a|
    ensures Find(a + b, '\n') == k && (a + b)[..k] == a[..k] && (a + b)[k + 1..] == a[k + 1..] + b
  {
    var rest := a[k + 1..] + b;
    assert a + b == a[..k] + "\n" + rest;
    FindAppended(a[..k], '\n', rest);
  }

  // --------------------------------------------------------------- words

  /** Where the first white space stands, or the length. */
  function WordEnd(s: string): (k: nat)
    ensures k <= |s|
    ensures k < |s| ==> IsSpace(s[k])
    ensures forall i :: 0 <= i < k ==> !IsSpace(s[i])
  {
    if s == [] || IsSpace(s[0]) then 0 else WordEnd(s[1..]) + 1
  }

  /** `str::split_whitespace`. */
  function Words(s: string): seq<string>
    decreases |s|
  {
    if s == [] then []
    else if IsSpace(s[0]) then Words(s[1..])
    else var k := WordEnd(s); [s[..k]] + Words(s[k..])
  }

  predicate IsWord(s: string) {
    s != [] && forall i :: 0 <= i < |s| ==> !IsSpace(s[i])
  }

  lemma WordEndIs(s: string, k: nat)
    requires k <= |s| && (forall i :: 0 <= i < k ==> !IsSpace(s[i])) && (k < |s| ==> IsSpace(s[k]))
    ensures WordEnd(s) == k
  {
  }

  lemma WordsOfOne(a: string)
    requires IsWord(a)
    ensures Words(a) == [a]
  {
    WordEndIs(a, |a|);
    assert a[..|a|] == a && a[|a|..] == [];
  }

  lemma WordsOfTwo(a: string, b: string)
    requires IsWord(a) && IsWord(b)
    ensures Words(a + " " + b) == [a, b]
  {
    var s := a + " " + b;
    assert forall i :: 0 <= i < |a| ==> s[i] == a[i];
    WordEndIs(s, |a|);
    assert s[..|a|] == a && s[|a|..] == " " + b && (" " + b)[1..] == b;
    WordsOfOne(b);
  }

  lemma DecimalIsWord(n: nat)
    ensures IsWord(Decimal(n))
    ensures forall i :: 0 <= i < |Decimal(n)| ==> Decimal(n)[i] != '\n' && Decimal(n)[i] != '\r' && Decimal(n)[i] != '#'
  {
    forall i | 0 <= i < |Decimal(n)| ensures !IsSpace(Decimal(n)[i]) {
      assert IsDigit(Decimal(n)[i]);
    }
  }
}
