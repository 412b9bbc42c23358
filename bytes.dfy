/** Bytes, and the two ways the code turns a JavaScript string into bytes. */
module Bytes {
  import opened Wrappers

  type byte = x: int | 0 <= x < 256

  predicate IsContinuation(b: byte) {
    0x80 <= b < 0xC0
  }

  /** UTF-8 encoding of one Unicode scalar value, as in section 3 of RFC 3629. */
  function EncodeChar(c: char): (r: seq<byte>)
    ensures 1 <= |r| <= 4
    ensures |r| == 1 <==> c as int < 0x80
    ensures forall i :: 1 <= i < |r| ==> IsContinuation(r[i])
  {
    var n := c as int;
    if n < 0x80 then [n]
    else if n < 0x800 then [0xC0 + n / 64, 0x80 + n % 64]
    else if n < 0x1_0000 then [0xE0 + n / 4096, 0x80 + n / 64 % 64, 0x80 + n % 64]
    else [0xF0 + n / 262144, 0x80 + n / 4096 % 64, 0x80 + n / 64 % 64, 0x80 + n % 64]
  }

  /** What forge's `createBuffer(text, 'utf8')` puts in the buffer. */
  function Utf8(s: string): seq<byte>
  {
    if s == [] then [] else EncodeChar(s[0]) + Utf8(s[1..])
  }

  /** The length of the UTF-8 form of a string from the lengths of its characters' forms. */
  lemma {:induction false} Utf8Length(s: string)
    ensures |s| <= |Utf8(s)| <= 4 * |s|
    ensures (forall i :: 0 <= i < |s| ==> s[i] as int < 0x80) ==> |Utf8(s)| == |s|
  {
    if s != [] {
      Utf8Length(s[1..]);
    }
  }

  /** An ASCII string is its own UTF-8 encoding, byte for character. */
  lemma {:induction false} Utf8Ascii(s: string)
    requires forall i :: 0 <= i < |s| ==> s[i] as int < 0x80
    ensures |Utf8(s)| == |s|
    ensures forall i :: 0 <= i < |s| ==> Utf8(s)[i] == s[i] as int
  {
    if s != [] {
      Utf8Ascii(s[1..]);
      assert Utf8(s) == [s[0] as int] + Utf8(s[1..]);
    }
  }

  /** Reads one scalar value back: the lead byte fixes the length of the sequence. */
  function DecodeChar(b: seq<byte>): (r: Option<(char, nat)>)
    ensures r.Some? ==> 1 <= r.value.1 <= |b|
  {
    if |b| == 0 then None
    else if b[0] < 0x80 then Some((b[0] as char, 1))
    else
      var len := if 0xC0 <= b[0] < 0xE0 then 2 else if 0xE0 <= b[0] < 0xF0 then 3 else if 0xF0 <= b[0] < 0xF8 then 4 else 0;
      if len == 0 || |b| < len || exists i :: 1 <= i < len && !IsContinuation(b[i]) then None
      else
        var v :=
          if len == 2 then (b[0] as int - 0xC0) * 64 + (b[1] as int - 0x80)
          else if len == 3 then (b[0] as int - 0xE0) * 4096 + (b[1] as int - 0x80) * 64 + (b[2] as int - 0x80)
          else (b[0] as int - 0xF0) * 262144 + (b[1] as int - 0x80) * 4096 + (b[2] as int - 0x80) * 64 + (b[3] as int - 0x80);
        if 0xD800 <= v < 0xE000 || 0x11_0000 <= v then None
        else Some((v as char, len))
  }

  /** A reference UTF-8 decoder; the code never decodes, it is here to show `Utf8` loses nothing. */
  function Utf8Decode(b: seq<byte>): Option<string>
    decreases |b|
  {
    if |b| == 0 then Some([])
    else match DecodeChar(b)
      case None => None
      case Some((c, len)) =>
        match Utf8Decode(b[len..])
        case None => None
        case Some(rest) => Some([c] + rest)
  }

  lemma TwoByteValue(n: int)
    requires 0x80 <= n < 0x800
    ensures (0xC0 + n / 64 - 0xC0) * 64 + (0x80 + n % 64 - 0x80) == n
  {
  }

  lemma ThreeByteValue(n: int)
    requires 0x800 <= n < 0x1_0000
    ensures n / 4096 * 4096 + n / 64 % 64 * 64 + n % 64 == n
  {
    assert n / 64 == n / 4096 * 64 + n / 64 % 64;
  }

  lemma FourByteValue(n: int)
    requires 0x1_0000 <= n < 0x11_0000
    ensures n / 262144 * 262144 + n / 4096 % 64 * 4096 + n / 64 % 64 * 64 + n % 64 == n
  {
    assert n / 4096 == n / 262144 * 64 + n / 4096 % 64;
    ThreeByteValue(n % 4096 + 4096);
    assert n / 64 == n / 4096 * 64 + n / 64 % 64;
  }

  lemma DecodeEncodeChar(c: char, tail: seq<byte>)
    ensures DecodeChar(EncodeChar(c) + tail) == Some((c, |EncodeChar(c)|))
  {
    var n := c as int;
    var e := EncodeChar(c);
    var b := e + tail;
    assert forall i :: 0 <= i < |e| ==> b[i] == e[i];
    if n < 0x80 {
    } else if n < 0x800 {
      TwoByteValue(n);
    } else if n < 0x1_0000 {
      ThreeByteValue(n);
    } else {
      FourByteValue(n);
    }
  }

  /** Decoding the UTF-8 form gives back the string: the plaintext is the value, nothing lost. */
  lemma {:induction false} Utf8RoundTrip(s: string)
    ensures Utf8Decode(Utf8(s)) == Some(s)
  {
    if s != [] {
      var b := Utf8(s);
      DecodeEncodeChar(s[0], Utf8(s[1..]));
      assert b[|EncodeChar(s[0])|..] == Utf8(s[1..]);
      Utf8RoundTrip(s[1..]);
      assert [s[0]] + s[1..] == s;
    }
  }

  /**
   * A JavaScript string handed to forge as a binary string: one byte per character, counted
   * the way forge's OAEP length check counts the string. Up to U+00FF that byte is the
   * character's code; above it forge's bytes are not modelled, and the low eight bits stand in.
   */
  function RawBytes(s: string): (r: seq<byte>)
    ensures |r| == |s|
    ensures forall i :: 0 <= i < |s| && s[i] as int < 256 ==> r[i] == s[i] as int
  {
    seq(|s|, i requires 0 <= i < |s| => s[i] as int % 256)
  }
}
