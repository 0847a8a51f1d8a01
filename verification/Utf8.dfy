/** UTF-8, as `String` holds text and `String::from_utf8` checks it. */
module Utf8 {
  import opened Text

  type byte = n: int | 0 <= n < 256

  const LINE_FEED: byte := 10

  predicate Continues(b: byte) {
    0x80 <= b < 0xC0
  }

  /** The six bits a following byte carries. */
  function Bits(b: byte): int {
    b - 0x80
  }

  /** The bits a first byte carries past its marker. */
  function Lead(b: byte, marker: int): int {
    b - marker
  }

  /** One character's bytes. */
  function EncodeChar(c: char): (r: seq<byte>)
    ensures 1 <= |r| <= 4
  {
    var n := c as int;
    if n < 0x80 then [n]
    else if n < 0x800 then [0xC0 + n / 64, 0x80 + n % 64]
    else if n < 0x1_0000 then [0xE0 + n / 4096, 0x80 + n / 64 % 64, 0x80 + n % 64]
    else [0xF0 + n / 262144, 0x80 + n / 4096 % 64, 0x80 + n / 64 % 64, 0x80 + n % 64]
  }

  function Encode(s: string): seq<byte> {
    if s == [] then [] else EncodeChar(s[0]) + Encode(s[1..])
  }

  predicate IsScalar(n: int) {
    0 <= n < 0xD800 || 0xE000 <= n < 0x11_0000
  }

  /** The character the bytes start with, and how many bytes it took: shortest
      form only, no surrogates, nothing past U+10FFFF. */
  function DecodeChar(b: seq<byte>): (r: Option<(char, nat)>)
    ensures r.Some? ==> 1 <= r.value.1 <= |b|
  {
    if |b| >= 1 && b[0] < 0x80 then Some((b[0] as char, 1))
    else if |b| >= 2 && 0xC0 <= b[0] < 0xE0 && Continues(b[1]) then
      var n := Lead(b[0], 0xC0) * 64 + Bits(b[1]);
      if 0x80 <= n then Some((n as char, 2)) else None
    else if |b| >= 3 && 0xE0 <= b[0] < 0xF0 && Continues(b[1]) && Continues(b[2]) then
      var n := Lead(b[0], 0xE0) * 4096 + Bits(b[1]) * 64 + Bits(b[2]);
      if 0x800 <= n && IsScalar(n) then Some((n as char, 3)) else None
    else if |b| >= 4 && 0xF0 <= b[0] < 0xF8 && Continues(b[1]) && Continues(b[2]) && Continues(b[3]) then
      var n := Lead(b[0], 0xF0) * 262144 + Bits(b[1]) * 4096 + Bits(b[2]) * 64 + Bits(b[3]);
      if 0x1_0000 <= n && IsScalar(n) then Some((n as char, 4)) else None
    else None
  }

  function Decode(b: seq<byte>): Option<string> {
    if b == [] then Some([])
    else
      match DecodeChar(b)
      case None => None
      case Some((c, k)) =>
        match Decode(b[k..])
        case None => None
        case Some(rest) => Some([c] + rest)
  }

  lemma DecodeOfEncodeChar(c: char, rest: seq<byte>)
    ensures DecodeChar(EncodeChar(c) + rest) == Some((c, |EncodeChar(c)|))
  {
    var n := c as int;
    var b := EncodeChar(c) + rest;
    assert forall i :: 0 <= i < |EncodeChar(c)| ==> b[i] == EncodeChar(c)[i];
    assert IsScalar(n);
    SextetsOf(n);
    if n < 0x80 {
      assert DecodeChar(b) == Some((c, 1));
    } else if n < 0x800 {
      assert Continues(b[1]) && Lead(b[0], 0xC0) * 64 + Bits(b[1]) == n;
    } else if n < 0x1_0000 {
      assert Continues(b[1]) && Continues(b[2]) && Lead(b[0], 0xE0) * 4096 + Bits(b[1]) * 64 + Bits(b[2]) == n;
    } else {
      assert Continues(b[1]) && Continues(b[2]) && Continues(b[3]);
      assert Lead(b[0], 0xF0) * 262144 + Bits(b[1]) * 4096 + Bits(b[2]) * 64 + Bits(b[3]) == n;
    }
  }

  lemma SextetsOf(n: nat)
    ensures n == n / 64 * 64 + n % 64
    ensures n / 64 == n / 4096 * 64 + n / 64 % 64
    ensures n / 4096 == n / 262144 * 64 + n / 4096 % 64
  {
  }

  lemma EncodeOfDecodeChar(b: seq<byte>)
    ensures match DecodeChar(b) case None => true case Some((c, k)) => b[..k] == EncodeChar(c)
  {
    if DecodeChar(b).Some? {
      var k := DecodeChar(b).value.1;
      if k == 2 {
        TwoBytes(b[0], b[1]);
      } else if k == 3 {
        ThreeBytes(b[0], b[1], b[2]);
      } else if k == 4 {
        FourBytes(b[0], b[1], b[2], b[3]);
      }
    }
  }

  lemma TwoBytes(a: byte, b: byte)
    requires 0xC0 <= a < 0xE0 && Continues(b)
    ensures var n := Lead(a, 0xC0) * 64 + Bits(b); 0 <= n < 0x800 && n / 64 == Lead(a, 0xC0) && n % 64 == Bits(b)
  {
    Sextets(Lead(a, 0xC0), Bits(b));
  }

  lemma ThreeBytes(a: byte, b: byte, c: byte)
    requires 0xE0 <= a < 0xF0 && Continues(b) && Continues(c)
    ensures var n := Lead(a, 0xE0) * 4096 + Bits(b) * 64 + Bits(c);
            0 <= n < 0x1_0000 && n / 4096 == Lead(a, 0xE0) && n / 64 % 64 == Bits(b) && n % 64 == Bits(c)
  {
    var high := Lead(a, 0xE0) * 64 + Bits(b);
    Sextets(Lead(a, 0xE0), Bits(b));
    Sextets(high, Bits(c));
    Quotients(high * 64 + Bits(c));
  }

  lemma FourBytes(a: byte, b: byte, c: byte, d: byte)
    requires 0xF0 <= a < 0xF8 && Continues(b) && Continues(c) && Continues(d)
    ensures var n := Lead(a, 0xF0) * 262144 + Bits(b) * 4096 + Bits(c) * 64 + Bits(d);
            0 <= n && n / 262144 == Lead(a, 0xF0) && n / 4096 % 64 == Bits(b)
            && n / 64 % 64 == Bits(c) && n % 64 == Bits(d)
  {
    var top := Lead(a, 0xF0) * 64 + Bits(b);
    var high := top * 64 + Bits(c);
    Sextets(Lead(a, 0xF0), Bits(b));
    Sextets(top, Bits(c));
    Sextets(high, Bits(d));
    Quotients(high * 64 + Bits(d));
  }

  lemma Quotients(n: nat)
    ensures n / 64 / 64 == n / 4096 && n / 4096 / 64 == n / 262144
  {
  }

  lemma Sextets(high: int, low: int)
    requires 0 <= low < 64 && 0 <= high
    ensures (high * 64 + low) / 64 == high && (high * 64 + low) % 64 == low
  {
  }

  /** Every text survives its bytes. */
  lemma {:induction false} DecodeOfEncode(s: string)
    ensures Decode(Encode(s)) == Some(s)
  {
    if s != [] {
      var rest := Encode(s[1..]);
      DecodeOfEncodeChar(s[0], rest);
      var b := EncodeChar(s[0]) + rest;
      assert b[|EncodeChar(s[0])|..] == rest;
      DecodeOfEncode(s[1..]);
      assert [s[0]] + s[1..] == s;
    }
  }

  /** And only what a text encodes to is accepted: no two spellings. */
  lemma {:induction false} EncodeOfDecode(b: seq<byte>)
    ensures Decode(b).Some? ==> Encode(Decode(b).value) == b
  {
    hide DecodeChar, EncodeChar;
    if b != [] && DecodeChar(b).Some? {
      var k := DecodeChar(b).value.1;
      EncodeOfDecodeChar(b);
      EncodeOfDecode(b[k..]);
      if Decode(b[k..]).Some? {
        var rest := Decode(b[k..]).value;
        var c := DecodeChar(b).value.0;
        assert ([c] + rest)[1..] == rest;
        assert b == b[..k] + b[k..];
      }
    }
  }

  lemma {:induction false} EncodeAppend(a: string, b: string)
    ensures Encode(a + b) == Encode(a) + Encode(b)
  {
    if a == [] {
      assert a + b == b;
    } else {
      assert (a + b)[0] == a[0] && (a + b)[1..] == a[1..] + b;
      EncodeAppend(a[1..], b);
    }
  }

  predicate Ascii(s: string) {
    forall i :: 0 <= i < |s| ==> s[i] as int < 0x80
  }

  lemma {:induction false} EncodeAscii(s: string)
    requires Ascii(s)
    ensures |Encode(s)| == |s|
    ensures forall i :: 0 <= i < |s| ==> Encode(s)[i] == s[i] as int
  {
    if s != [] {
      EncodeAscii(s[1..]);
    }
  }

  /** A byte below 128 is never part of a longer character: wherever it stands,
      it is that character, and the bytes before it are whole characters. */
  lemma {:induction false} AsciiByteIsAChar(s: string, at: nat) returns (k: nat)
    requires at < |Encode(s)| && Encode(s)[at] < 0x80
    ensures k < |s| && s[k] as int == Encode(s)[at]
    ensures Encode(s[..k + 1]) == Encode(s)[..at + 1]
  {
    var first := EncodeChar(s[0]);
    var rest := Encode(s[1..]);
    if at < |first| {
      assert first[at] == Encode(s)[at];
      k := 0;
      assert s[..1] == [s[0]];
      assert Encode([s[0]]) == first + Encode([s[0]][1..]) == first;
      assert Encode(s)[..1] == first;
    } else {
      var j := AsciiByteIsAChar(s[1..], at - |first|);
      k := j + 1;
      assert s[..k + 1][0] == s[0] && s[..k + 1][1..] == s[1..][..j + 1];
      assert Encode(s)[..at + 1] == first + rest[..at - |first| + 1];
    }
  }

  /** A zero byte is a NUL character and nothing else. */
  lemma {:induction false} NulIsNul(s: string)
    ensures 0 in Encode(s) <==> '\0' in s
  {
    if s != [] {
      NulIsNul(s[1..]);
      assert s == [s[0]] + s[1..];
      assert 0 in EncodeChar(s[0]) <==> s[0] == '\0';
    }
  }
}
