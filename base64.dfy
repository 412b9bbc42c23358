/** forge's `util.encode64`: the padded base-64 encoding of section 4 of RFC 4648, without line breaks. */
module Base64 {
  import opened Wrappers
  import opened Bytes

  type sextet = x: int | 0 <= x < 64

  const Pad: char := '='

  /** The encoding alphabet of section 4, table 1. */
  function Symbol(i: sextet): char
  {
    if i < 26 then ('A' as int + i) as char
    else if i < 52 then ('a' as int + (i - 26)) as char
    else if i < 62 then ('0' as int + (i - 52)) as char
    else if i == 62 then '+'
    else '/'
  }

  /** The alphabet read backwards; `None` for a character outside it. */
  function Index(c: char): (r: Option<sextet>)
    ensures r.Some? ==> Symbol(r.value) == c
  {
    if 'A' <= c <= 'Z' then Some(c as int - 'A' as int)
    else if 'a' <= c <= 'z' then Some(c as int - 'a' as int + 26)
    else if '0' <= c <= '9' then Some(c as int - '0' as int + 52)
    else if c == '+' then Some(62)
    else if c == '/' then Some(63)
    else None
  }

  lemma IndexSymbol(i: sextet)
    ensures Index(Symbol(i)) == Some(i)
  {
  }

  /** Four symbols per started group of three bytes. */
  function EncodedLength(n: nat): nat {
    if n == 0 then 0 else if n <= 3 then 4 else 4 + EncodedLength(n - 3)
  }

  /** The closed form: `4 * ceil(n / 3)`. */
  lemma {:induction false} EncodedLengthClosed(n: nat)
    ensures EncodedLength(n) == 4 * ((n + 2) / 3)
  {
    if n > 3 {
      EncodedLengthClosed(n - 3);
      assert (n + 2) / 3 == (n - 3 + 2) / 3 + 1;
    }
  }

  /** The four sextets of a group `b0 b1 b2`, six bits each, most significant first. */
  function S0(b0: byte): sextet { b0 / 4 }
  function S1(b0: byte, b1: byte): sextet { b0 % 4 * 16 + b1 / 16 }
  function S2(b1: byte, b2: byte): sextet { b1 % 16 * 4 + b2 / 64 }
  function S3(b2: byte): sextet { b2 % 64 }

  /**
   * Each group of three bytes becomes four symbols; a short last group is zero-filled and its
   * missing symbols are `=`.
   */
  function Encode(b: seq<byte>): (s: string)
    ensures |s| == EncodedLength(|b|)
    decreases |b|
  {
    if |b| == 0 then ""
    else if |b| == 1 then [Symbol(S0(b[0])), Symbol(S1(b[0], 0)), Pad, Pad]
    else if |b| == 2 then [Symbol(S0(b[0])), Symbol(S1(b[0], b[1])), Symbol(S2(b[1], 0)), Pad]
    else Group(b[0], b[1], b[2]) + Encode(b[3..])
  }

  /** The four symbols of a full group of three bytes. */
  function Group(b0: byte, b1: byte, b2: byte): string {
    [Symbol(S0(b0)), Symbol(S1(b0, b1)), Symbol(S2(b1, b2)), Symbol(S3(b2))]
  }

  /** The three bytes that four sextets carry, each assembled from the bits that cross a symbol boundary. */
  function First(c0: sextet, c1: sextet): byte { c0 * 4 + c1 / 16 }
  function Second(c1: sextet, c2: sextet): byte { c1 % 16 * 16 + c2 / 4 }
  function Third(c2: sextet, c3: sextet): byte { c2 % 4 * 64 + c3 }

  /** A reference decoder for the same alphabet (the code never decodes; this states what the wire carries). */
  function Decode(s: string): Option<seq<byte>>
    decreases |s|
  {
    if |s| == 0 then Some([])
    else if |s| < 4 || Index(s[0]).None? || Index(s[1]).None? then None
    else
      var c0, c1 := Index(s[0]).value, Index(s[1]).value;
      if |s| == 4 && s[2] == Pad && s[3] == Pad then Some([First(c0, c1)])
      else if Index(s[2]).None? then None
      else
        var c2 := Index(s[2]).value;
        if |s| == 4 && s[3] == Pad then Some([First(c0, c1), Second(c1, c2)])
        else if Index(s[3]).None? then None
        else
          var rest := Decode(s[4..]);
          if rest.None? then None
          else Some([First(c0, c1), Second(c1, c2), Third(c2, Index(s[3]).value)] + rest.value)
  }

  lemma SymbolNotPad(i: sextet)
    ensures Symbol(i) != Pad && Symbol(i) != '\n'
  {
  }

  /** Euclidean division by 16 and by 4 undoes `q * d + r` for a remainder in range. */
  lemma DivMod16(q: nat, r: nat)
    requires r < 16
    ensures (q * 16 + r) / 16 == q && (q * 16 + r) % 16 == r
  {
  }

  lemma DivMod4(q: nat, r: nat)
    requires r < 4
    ensures (q * 4 + r) / 4 == q && (q * 4 + r) % 4 == r
  {
  }

  /** The bits of a group, reassembled from the symbols they were spread over. */
  lemma FirstRoundTrip(b0: byte, b1: byte)
    ensures First(S0(b0), S1(b0, b1)) == b0
  {
    DivMod16(b0 % 4, b1 / 16);
  }

  lemma SecondRoundTrip(b0: byte, b1: byte, b2: byte)
    ensures Second(S1(b0, b1), S2(b1, b2)) == b1
  {
    DivMod16(b0 % 4, b1 / 16);
    DivMod4(b1 % 16, b2 / 64);
  }

  lemma ThirdRoundTrip(b1: byte, b2: byte)
    ensures Third(S2(b1, b2), S3(b2)) == b2
  {
    DivMod4(b1 % 16, b2 / 64);
  }

  lemma DecodeGroup(c0: sextet, c1: sextet, c2: sextet, c3: sextet, rest: string)
    ensures var s := [Symbol(c0), Symbol(c1), Symbol(c2), Symbol(c3)] + rest;
            Decode(s) == if Decode(rest).None? then None
                         else Some([First(c0, c1), Second(c1, c2), Third(c2, c3)] + Decode(rest).value)
  {
    var s := [Symbol(c0), Symbol(c1), Symbol(c2), Symbol(c3)] + rest;
    IndexSymbol(c0);
    IndexSymbol(c1);
    IndexSymbol(c2);
    IndexSymbol(c3);
    SymbolNotPad(c3);
    assert s[4..] == rest;
  }

  lemma DecodeOne(c0: sextet, c1: sextet)
    ensures Decode([Symbol(c0), Symbol(c1), Pad, Pad]) == Some([First(c0, c1)])
  {
    IndexSymbol(c0);
    IndexSymbol(c1);
  }

  lemma DecodeTwo(c0: sextet, c1: sextet, c2: sextet)
    ensures Decode([Symbol(c0), Symbol(c1), Symbol(c2), Pad]) == Some([First(c0, c1), Second(c1, c2)])
  {
    IndexSymbol(c0);
    IndexSymbol(c1);
    IndexSymbol(c2);
    SymbolNotPad(c2);
  }

  lemma RoundTripOne(b: seq<byte>)
    requires |b| == 1
    ensures Decode(Encode(b)) == Some(b)
  {
    DecodeOne(S0(b[0]), S1(b[0], 0));
    FirstRoundTrip(b[0], 0);
    assert [b[0]] == b;
  }

  lemma RoundTripTwo(b: seq<byte>)
    requires |b| == 2
    ensures Decode(Encode(b)) == Some(b)
  {
    DecodeTwo(S0(b[0]), S1(b[0], b[1]), S2(b[1], 0));
    FirstRoundTrip(b[0], b[1]);
    SecondRoundTrip(b[0], b[1], 0);
    assert [b[0], b[1]] == b;
  }

  /** A full group decodes to its three bytes, ahead of whatever the rest decodes to. */
  lemma DecodeGroupBytes(b0: byte, b1: byte, b2: byte, rest: string)
    ensures Decode(Group(b0, b1, b2) + rest)
            == if Decode(rest).None? then None else Some([b0, b1, b2] + Decode(rest).value)
  {
    DecodeGroup(S0(b0), S1(b0, b1), S2(b1, b2), S3(b2), rest);
    FirstRoundTrip(b0, b1);
    SecondRoundTrip(b0, b1, b2);
    ThirdRoundTrip(b1, b2);
  }

  lemma RoundTripGroup(b: seq<byte>)
    requires |b| >= 3 && Decode(Encode(b[3..])) == Some(b[3..])
    ensures Decode(Encode(b)) == Some(b)
  {
    DecodeGroupBytes(b[0], b[1], b[2], Encode(b[3..]));
    HeadThree(b);
  }

  lemma HeadThree(b: seq<byte>)
    requires |b| >= 3
    ensures [b[0], b[1], b[2]] + b[3..] == b
  {
    assert ([b[0], b[1], b[2]] + b[3..])[..3] == b[..3];
  }

  /** Decoding an encoding gives the bytes back. */
  lemma {:induction false} DecodeEncode(b: seq<byte>)
    ensures Decode(Encode(b)) == Some(b)
    decreases |b|
  {
    if |b| == 1 {
      RoundTripOne(b);
    } else if |b| == 2 {
      RoundTripTwo(b);
    } else if |b| >= 3 {
      DecodeEncode(b[3..]);
      RoundTripGroup(b);
    }
  }

  /** The encoding holds only alphabet symbols and `=`; in particular no line break. */
  lemma {:induction false} EncodeAlphabet(b: seq<byte>)
    ensures forall i :: 0 <= i < |Encode(b)| ==> Encode(b)[i] == Pad || Index(Encode(b)[i]).Some?
    ensures '\n' !in Encode(b)
    decreases |b|
  {
    var s := Encode(b);
    if |b| >= 3 {
      EncodeAlphabet(b[3..]);
      assert s == s[..4] + Encode(b[3..]);
      forall i | 0 <= i < 4 ensures s[i] == Pad || Index(s[i]).Some? {
        IndexSymbol(if i == 0 then S0(b[0]) else if i == 1 then S1(b[0], b[1])
                    else if i == 2 then S2(b[1], b[2]) else S3(b[2]));
      }
    } else if |b| > 0 {
      forall i | 0 <= i < |s| ensures s[i] == Pad || Index(s[i]).Some? {
        if i == 0 { IndexSymbol(S0(b[0])); }
        else if i == 1 { IndexSymbol(if |b| == 1 then S1(b[0], 0) else S1(b[0], b[1])); }
        else if i == 2 && |b| == 2 { IndexSymbol(S2(b[1], 0)); }
      }
    }
    assert forall i :: 0 <= i < |s| ==> s[i] != '\n';
  }
}
