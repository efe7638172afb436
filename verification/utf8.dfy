/** UTF-8 as Rust's `str` stores it (Unicode 15, table 3-7): `Encode` is the
    byte view of a string (`as_bytes`), `Decode` is `std::str::from_utf8`,
    which accepts exactly the well-formed byte sequences. */
module Utf8 {
  import opened Wrappers
  import opened Bytes

  /** A continuation byte 0x80..0xBF. */
  predicate IsContinuation(b: byte) {
    0x80 <= b <= 0xBF
  }

  /** The bytes of one character. */
  function EncodeChar(c: char): (r: seq<byte>)
    ensures 1 <= |r| <= 4
    ensures |r| == 1 <==> IsAscii(c)
  {
    var n := c as int;
    if n < 0x80 then [n]
    else if n < 0x800 then [0xC0 + n / 64, 0x80 + n % 64]
    else if n < 0x1_0000 then [0xE0 + n / 4096, 0x80 + (n / 64) % 64, 0x80 + n % 64]
    else [0xF0 + n / 262144, 0x80 + (n / 4096) % 64, 0x80 + (n / 64) % 64, 0x80 + n % 64]
  }

  /** The bytes of a string: the encodings of its characters, concatenated. */
  function Encode(s: string): (r: seq<byte>)
    ensures |r| >= |s|
  {
    if |s| == 0 then [] else EncodeChar(s[0]) + Encode(s[1..])
  }

  /** The well-formed sequence at the front of `b`, as the character it encodes
      and its length in bytes; `None` when `b` does not start with one. */
  function DecodeFirst(b: seq<byte>): (r: Option<(char, nat)>)
    ensures r.Some? ==> 1 <= r.value.1 <= |b| && r.value.1 <= 4
  {
    if |b| == 0 then None
    else
      var b0: int := b[0];
      if b0 < 0x80 then Some((b0 as char, 1))
      else if 0xC2 <= b0 <= 0xDF then
        if |b| >= 2 && IsContinuation(b[1])
        then Some((Payload2(b0, b[1]) as char, 2))
        else None
      else if 0xE0 <= b0 <= 0xEF then
        var lo := if b0 == 0xE0 then 0xA0 else 0x80;
        var hi := if b0 == 0xED then 0x9F else 0xBF;
        if |b| >= 3 && lo <= b[1] <= hi && IsContinuation(b[2])
        then Some((Payload3(b0, b[1], b[2]) as char, 3))
        else None
      else if 0xF0 <= b0 <= 0xF4 then
        var lo := if b0 == 0xF0 then 0x90 else 0x80;
        var hi := if b0 == 0xF4 then 0x8F else 0xBF;
        if |b| >= 4 && lo <= b[1] <= hi && IsContinuation(b[2]) && IsContinuation(b[3])
        then Some((Payload4(b0, b[1], b[2], b[3]) as char, 4))
        else None
      else None
  }

  /** The code point carried by a two-, three- or four-byte sequence:
      the lead byte's payload bits followed by six bits per continuation byte. */
  function Payload2(b0: int, b1: int): int { (b0 - 0xC0) * 64 + (b1 - 0x80) }
  function Payload3(b0: int, b1: int, b2: int): int { (b0 - 0xE0) * 4096 + (b1 - 0x80) * 64 + (b2 - 0x80) }
  function Payload4(b0: int, b1: int, b2: int, b3: int): int {
    (b0 - 0xF0) * 262144 + (b1 - 0x80) * 4096 + (b2 - 0x80) * 64 + (b3 - 0x80)
  }

  /** `std::str::from_utf8`: the string `b` encodes, or `None` when `b` is not well-formed UTF-8. */
  function Decode(b: seq<byte>): Option<string>
    decreases |b|
  {
    if |b| == 0 then Some("")
    else
      match DecodeFirst(b)
      case None => None
      case Some((c, k)) =>
        match Decode(b[k..])
        case None => None
        case Some(s) => Some([c] + s)
  }

  /** Dividing by 4096 or 262144 is dividing by 64 two or three times. */
  lemma SixBitGroups(n: nat)
    ensures n / 4096 == (n / 64) / 64
    ensures n / 262144 == ((n / 64) / 64) / 64
    ensures n == (n / 64) * 64 + n % 64
  {
    var q1, r0 := n / 64, n % 64;
    var q2, r1 := q1 / 64, q1 % 64;
    var q3, r2 := q2 / 64, q2 % 64;
    assert n == q2 * 4096 + r1 * 64 + r0;
    assert 0 <= r1 * 64 + r0 < 4096;
    assert n == q3 * 262144 + r2 * 4096 + r1 * 64 + r0;
    assert 0 <= r2 * 4096 + r1 * 64 + r0 < 262144;
  }

  /** Decoding the front of an encoded character gives it back and consumes exactly its bytes. */
  lemma DecodeFirstEncodeChar(c: char, rest: seq<byte>)
    ensures DecodeFirst(EncodeChar(c) + rest) == Some((c, |EncodeChar(c)|))
  {
    var n := c as int;
    if n < 0x80 {
      assert (EncodeChar(c) + rest)[0] == n;
    } else if n < 0x800 {
      DecodeFirstTwo(c, rest);
    } else if n < 0x1_0000 {
      DecodeFirstThree(c, rest);
    } else {
      DecodeFirstFour(c, rest);
    }
  }

  /** `DecodeFirstEncodeChar` for a two-byte character. */
  lemma DecodeFirstTwo(c: char, rest: seq<byte>)
    requires 0x80 <= c as int < 0x800
    ensures DecodeFirst(EncodeChar(c) + rest) == Some((c, 2))
  {
    var n := c as int;
    var b := EncodeChar(c) + rest;
    SixBitGroups(n);
    assert b[0] == 0xC0 + n / 64 && b[1] == 0x80 + n % 64;
    assert Payload2(b[0], b[1]) == n;
  }

  /** `DecodeFirstEncodeChar` for a three-byte character. */
  lemma DecodeFirstThree(c: char, rest: seq<byte>)
    requires 0x800 <= c as int < 0x1_0000
    ensures DecodeFirst(EncodeChar(c) + rest) == Some((c, 3))
  {
    var n := c as int;
    var b := EncodeChar(c) + rest;
    SixBitGroups(n);
    var q := n / 64;
    SixBitGroups(q);
    assert b[0] == 0xE0 + q / 64 && b[1] == 0x80 + q % 64 && b[2] == 0x80 + n % 64;
    assert Payload3(b[0], b[1], b[2]) == n;
  }

  /** `DecodeFirstEncodeChar` for a four-byte character. */
  lemma DecodeFirstFour(c: char, rest: seq<byte>)
    requires 0x1_0000 <= c as int
    ensures DecodeFirst(EncodeChar(c) + rest) == Some((c, 4))
  {
    var n := c as int;
    var b := EncodeChar(c) + rest;
    SixBitGroups(n);
    var q := n / 64;
    var q2 := q / 64;
    assert b[0] == 0xF0 + q2 / 64 && b[1] == 0x80 + q2 % 64;
    assert b[2] == 0x80 + q % 64 && b[3] == 0x80 + n % 64;
    assert Payload4(b[0], b[1], b[2], b[3]) == n;
  }

  /** A well-formed sequence is the encoding of the character it decodes to:
      `from_utf8` accepts no second spelling of any character. */
  lemma EncodeCharDecodeFirst(b: seq<byte>)
    requires DecodeFirst(b).Some?
    ensures EncodeChar(DecodeFirst(b).value.0) == b[..DecodeFirst(b).value.1]
  {
    var b0: int := b[0];
    if b0 < 0x80 {
    } else if b0 <= 0xDF {
      EncodeTwo(b[0], b[1]);
    } else if b0 <= 0xEF {
      EncodeThree(b[0], b[1], b[2]);
      assert b[..3] == [b[0], b[1], b[2]];
    } else {
      EncodeFour(b[0], b[1], b[2], b[3]);
      assert b[..4] == [b[0], b[1], b[2], b[3]];
    }
  }

  /** A two-byte sequence is the encoding of its code point. */
  lemma EncodeTwo(b0: byte, b1: byte)
    requires 0xC2 <= b0 <= 0xDF && IsContinuation(b1)
    ensures 0x80 <= Payload2(b0, b1) < 0x800
    ensures EncodeChar(Payload2(b0, b1) as char) == [b0, b1]
  {
    var n := Payload2(b0, b1);
    assert n / 64 == b0 - 0xC0 && n % 64 == b1 - 0x80;
  }

  /** A well-formed three-byte sequence is the encoding of its code point. */
  lemma EncodeThree(b0: byte, b1: byte, b2: byte)
    requires 0xE0 <= b0 <= 0xEF && IsContinuation(b1) && IsContinuation(b2)
    requires b0 == 0xE0 ==> b1 >= 0xA0
    requires b0 == 0xED ==> b1 <= 0x9F
    ensures 0x800 <= Payload3(b0, b1, b2) < 0x1_0000
    ensures !(0xD800 <= Payload3(b0, b1, b2) < 0xE000)
    ensures EncodeChar(Payload3(b0, b1, b2) as char) == [b0, b1, b2]
  {
    var n := Payload3(b0, b1, b2);
    SixBitGroups(n);
    assert n / 64 == (b0 - 0xE0) * 64 + (b1 - 0x80);
    assert n % 64 == b2 - 0x80;
  }

  /** A well-formed four-byte sequence is the encoding of its code point. */
  lemma EncodeFour(b0: byte, b1: byte, b2: byte, b3: byte)
    requires 0xF0 <= b0 <= 0xF4 && IsContinuation(b1) && IsContinuation(b2) && IsContinuation(b3)
    requires b0 == 0xF0 ==> b1 >= 0x90
    requires b0 == 0xF4 ==> b1 <= 0x8F
    ensures 0x1_0000 <= Payload4(b0, b1, b2, b3) < 0x11_0000
    ensures EncodeChar(Payload4(b0, b1, b2, b3) as char) == [b0, b1, b2, b3]
  {
    var n := Payload4(b0, b1, b2, b3);
    SixBitGroups(n);
    assert n / 64 == ((b0 - 0xF0) * 64 + (b1 - 0x80)) * 64 + (b2 - 0x80);
    assert n % 64 == b3 - 0x80;
  }

  /** Round trip: every string survives encoding and decoding. */
  lemma {:induction false} DecodeEncode(s: string)
    ensures Decode(Encode(s)) == Some(s)
  {
    if |s| > 0 {
      var e := EncodeChar(s[0]);
      DecodeFirstEncodeChar(s[0], Encode(s[1..]));
      assert (e + Encode(s[1..]))[|e|..] == Encode(s[1..]);
      DecodeEncode(s[1..]);
      assert [s[0]] + s[1..] == s;
    }
  }

  /** The converse round trip: accepted bytes are the encoding of what they decode to. */
  lemma {:induction false} EncodeDecode(b: seq<byte>)
    requires Decode(b).Some?
    ensures Encode(Decode(b).value) == b
    decreases |b|
  {
    if |b| > 0 {
      var k := DecodeStep(b);
      assert EncodeChar(DecodeFirst(b).value.0) == b[..k] by {
        EncodeCharDecodeFirst(b);
      }
      assert Encode(Decode(b[k..]).value) == b[k..] by {
        EncodeDecode(b[k..]);
      }
      assert b[..k] + b[k..] == b;
    }
  }

  /** One step of the decoder: an accepted non-empty sequence starts with a
      well-formed character, and the rest is accepted too. */
  lemma DecodeStep(b: seq<byte>) returns (k: nat)
    requires |b| > 0 && Decode(b).Some?
    ensures DecodeFirst(b).Some? && k == DecodeFirst(b).value.1 && k <= |b|
    ensures Decode(b[k..]).Some?
    ensures Decode(b).value == [DecodeFirst(b).value.0] + Decode(b[k..]).value
    ensures Encode(Decode(b).value) == EncodeChar(DecodeFirst(b).value.0) + Encode(Decode(b[k..]).value)
  {
    k := DecodeFirst(b).value.1;
    var s := Decode(b).value;
    assert s[1..] == Decode(b[k..]).value;
  }

  /** An ASCII string occupies one byte per character. */
  lemma {:induction false} EncodeAsciiLength(s: string)
    requires forall i :: 0 <= i < |s| ==> IsAscii(s[i])
    ensures |Encode(s)| == |s|
  {
    if |s| > 0 {
      EncodeAsciiLength(s[1..]);
    }
  }
}
