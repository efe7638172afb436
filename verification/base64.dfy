/** Base64 with the standard alphabet and padding (section 4 of RFC 4648), as
    the `base64` crate's `STANDARD` engine implements it: the encoder always
    pads to a multiple of four symbols, and the decoder insists on canonical
    padding and on zero bits after the last encoded byte. */
module Base64 {
  import opened Wrappers
  import opened Bytes

  const Padding: char := '='

  /** A symbol of the standard alphabet `A-Z a-z 0-9 + /`. */
  predicate IsSymbol(c: char) {
    ('A' <= c <= 'Z') || ('a' <= c <= 'z') || ('0' <= c <= '9') || c == '+' || c == '/'
  }

  /** The symbol for a six-bit value. */
  function SymbolOf(i: int): (c: char)
    requires 0 <= i < 64
    ensures IsSymbol(c) && IsAscii(c)
  {
    if i < 26 then ('A' as int + i) as char
    else if i < 52 then ('a' as int + (i - 26)) as char
    else if i < 62 then ('0' as int + (i - 52)) as char
    else if i == 62 then '+'
    else '/'
  }

  /** The six-bit value of a symbol. */
  function ValueOf(c: char): (i: int)
    requires IsSymbol(c)
    ensures 0 <= i < 64
  {
    if 'A' <= c <= 'Z' then c as int - 'A' as int
    else if 'a' <= c <= 'z' then c as int - 'a' as int + 26
    else if '0' <= c <= '9' then c as int - '0' as int + 52
    else if c == '+' then 62
    else 63
  }

  /** Symbols and six-bit values are in one-to-one correspondence. */
  lemma SymbolValue(i: int, c: char)
    requires 0 <= i < 64
    requires IsSymbol(c)
    ensures ValueOf(SymbolOf(i)) == i
    ensures SymbolOf(ValueOf(c)) == c
  {
  }

  /** The four symbols of a full three-byte group. */
  function EncodeGroup(b0: byte, b1: byte, b2: byte): string
  {
    [SymbolOf(b0 / 4), SymbolOf((b0 % 4) * 16 + b1 / 16), SymbolOf((b1 % 16) * 4 + b2 / 64), SymbolOf(b2 % 64)]
  }

  /** `BASE64_STANDARD.encode`. */
  function Encode(b: seq<byte>): (r: string)
    ensures |r| == (|b| + 2) / 3 * 4
    ensures |r| == 0 <==> |b| == 0
  {
    if |b| == 0 then ""
    else if |b| == 1 then [SymbolOf(b[0] / 4), SymbolOf((b[0] % 4) * 16), Padding, Padding]
    else if |b| == 2 then
      [SymbolOf(b[0] / 4), SymbolOf((b[0] % 4) * 16 + b[1] / 16), SymbolOf((b[1] % 16) * 4), Padding]
    else EncodeGroup(b[0], b[1], b[2]) + Encode(b[3..])
  }

  /** Encoded text is plain ASCII: symbols of the alphabet and padding. */
  lemma {:induction false} EncodeIsAscii(b: seq<byte>)
    ensures forall k :: 0 <= k < |Encode(b)| ==> IsAscii(Encode(b)[k])
  {
    if |b| >= 3 {
      EncodeIsAscii(b[3..]);
      var q := EncodeGroup(b[0], b[1], b[2]);
      assert Encode(b) == q + Encode(b[3..]);
      forall k | 0 <= k < |Encode(b)|
        ensures IsAscii(Encode(b)[k])
      {
        if k >= 4 {
          assert Encode(b)[k] == Encode(b[3..])[k - 4];
        }
      }
    }
  }

  /** The three bytes carried by four symbols. */
  function DecodeGroup(i0: int, i1: int, i2: int, i3: int): seq<byte>
    requires 0 <= i0 < 64 && 0 <= i1 < 64 && 0 <= i2 < 64 && 0 <= i3 < 64
  {
    [i0 * 4 + i1 / 16, (i1 % 16) * 16 + i2 / 4, (i2 % 4) * 64 + i3]
  }

  /** The last quadruple: four symbols, three symbols and one pad, or two
      symbols and two pads; the bits a padded quadruple does not use must be zero. */
  function DecodeFinal(q: string): Option<seq<byte>>
    requires |q| == 4
  {
    if IsSymbol(q[0]) && IsSymbol(q[1]) && IsSymbol(q[2]) && IsSymbol(q[3]) then
      Some(DecodeGroup(ValueOf(q[0]), ValueOf(q[1]), ValueOf(q[2]), ValueOf(q[3])))
    else if IsSymbol(q[0]) && IsSymbol(q[1]) && IsSymbol(q[2]) && q[3] == Padding
            && ValueOf(q[2]) % 4 == 0 then
      Some(DecodeGroup(ValueOf(q[0]), ValueOf(q[1]), ValueOf(q[2]), 0)[..2])
    else if IsSymbol(q[0]) && IsSymbol(q[1]) && q[2] == Padding && q[3] == Padding
            && ValueOf(q[1]) % 16 == 0 then
      Some(DecodeGroup(ValueOf(q[0]), ValueOf(q[1]), 0, 0)[..1])
    else None
  }

  /** `BASE64_STANDARD.decode`: the bytes `s` encodes, or `None` when `s` has a
      length that is not a multiple of four, a character outside the alphabet,
      padding anywhere but at the end, or non-zero unused bits. */
  function Decode(s: string): Option<seq<byte>>
  {
    if |s| == 0 then Some([])
    else if |s| < 4 then None
    else if |s| == 4 then DecodeFinal(s)
    else if IsSymbol(s[0]) && IsSymbol(s[1]) && IsSymbol(s[2]) && IsSymbol(s[3]) then
      match Decode(s[4..])
      case None => None
      case Some(rest) => Some(DecodeGroup(ValueOf(s[0]), ValueOf(s[1]), ValueOf(s[2]), ValueOf(s[3])) + rest)
    else None
  }

  /** Place-value arithmetic: `a` and `r` are recovered from `a * k + r` for the
      group widths the codec uses. */
  lemma PlaceValue(a: int, r: int)
    requires 0 <= a
    ensures 0 <= r < 4 ==> (a * 4 + r) / 4 == a && (a * 4 + r) % 4 == r
    ensures 0 <= r < 16 ==> (a * 16 + r) / 16 == a && (a * 16 + r) % 16 == r
    ensures 0 <= r < 64 ==> (a * 64 + r) / 64 == a && (a * 64 + r) % 64 == r
  {
  }

  /** A byte split into its high and low bits at the widths the codec uses. */
  lemma ByteSplit(b: byte)
    ensures b == (b / 4) * 4 + b % 4
    ensures b == (b / 16) * 16 + b % 16
    ensures b == (b / 64) * 64 + b % 64
    ensures b / 4 < 64 && b / 16 < 16 && b / 64 < 4
  {
  }

  /** A full group survives encoding and decoding. */
  lemma GroupRoundTrip(b0: byte, b1: byte, b2: byte)
    ensures var q := EncodeGroup(b0, b1, b2);
      DecodeGroup(ValueOf(q[0]), ValueOf(q[1]), ValueOf(q[2]), ValueOf(q[3])) == [b0, b1, b2]
  {
    var q := EncodeGroup(b0, b1, b2);
    var i0, i1, i2, i3 := b0 / 4, (b0 % 4) * 16 + b1 / 16, (b1 % 16) * 4 + b2 / 64, b2 % 64;
    assert ValueOf(q[0]) == i0 && ValueOf(q[1]) == i1 && ValueOf(q[2]) == i2 && ValueOf(q[3]) == i3 by {
      SymbolValue(i0, 'A');
      SymbolValue(i1, 'A');
      SymbolValue(i2, 'A');
      SymbolValue(i3, 'A');
    }
    assert i0 * 4 + i1 / 16 == b0 by {
      ByteSplit(b0);
      PlaceValue(b0 % 4, b1 / 16);
    }
    assert (i1 % 16) * 16 + i2 / 4 == b1 by {
      ByteSplit(b1);
      PlaceValue(b0 % 4, b1 / 16);
      PlaceValue(b1 % 16, b2 / 64);
    }
    assert (i2 % 4) * 64 + i3 == b2 by {
      ByteSplit(b2);
      PlaceValue(b1 % 16, b2 / 64);
    }
  }

  /** The padded encoding of one trailing byte decodes back to it. */
  lemma DecodeEncodeOne(b0: byte)
    ensures Decode(Encode([b0])) == Some([b0])
  {
    var q := Encode([b0]);
    var i0, i1 := b0 / 4, (b0 % 4) * 16;
    assert q == [SymbolOf(i0), SymbolOf(i1), Padding, Padding];
    ByteSplit(b0);
    SymbolValue(i0, 'A');
    SymbolValue(i1, 'A');
    PlaceValue(b0 % 4, 0);
    var g := DecodeGroup(i0, i1, 0, 0);
    assert DecodeFinal(q) == Some(g[..1]);
    assert g[0] == b0;
    assert g[..1] == [b0];
    assert Decode(q) == DecodeFinal(q);
  }

  /** The padded encoding of two trailing bytes decodes back to them. */
  lemma DecodeEncodeTwo(b0: byte, b1: byte)
    ensures Decode(Encode([b0, b1])) == Some([b0, b1])
  {
    var q := Encode([b0, b1]);
    var i0, i1, i2 := b0 / 4, (b0 % 4) * 16 + b1 / 16, (b1 % 16) * 4;
    assert q == [SymbolOf(i0), SymbolOf(i1), SymbolOf(i2), Padding];
    ByteSplit(b0);
    ByteSplit(b1);
    SymbolValue(i0, 'A');
    SymbolValue(i1, 'A');
    SymbolValue(i2, 'A');
    PlaceValue(b0 % 4, b1 / 16);
    PlaceValue(b1 % 16, 0);
    var g := DecodeGroup(i0, i1, i2, 0);
    assert DecodeFinal(q) == Some(g[..2]);
    assert g[0] == b0 && g[1] == b1;
    assert g[..2] == [b0, b1];
    assert Decode(q) == DecodeFinal(q);
  }

  /** The unpadded encoding of a final full group decodes back to it. */
  lemma DecodeEncodeThree(b0: byte, b1: byte, b2: byte)
    ensures Decode(Encode([b0, b1, b2])) == Some([b0, b1, b2])
  {
    var q := EncodeGroup(b0, b1, b2);
    assert [b0, b1, b2][3..] == [];
    assert Encode([b0, b1, b2]) == q + "";
    assert q + "" == q;
    GroupRoundTrip(b0, b1, b2);
    assert Decode(q) == DecodeFinal(q);
  }

  /** Decoding a quadruple of symbols followed by more input. */
  lemma DecodeStep(s: string)
    requires |s| > 4 && IsSymbol(s[0]) && IsSymbol(s[1]) && IsSymbol(s[2]) && IsSymbol(s[3])
    requires Decode(s[4..]).Some?
    ensures Decode(s) == Some(DecodeGroup(ValueOf(s[0]), ValueOf(s[1]), ValueOf(s[2]), ValueOf(s[3])) + Decode(s[4..]).value)
  {
  }

  /** The encoding of four or more bytes starts with the symbols of the first group. */
  lemma EncodeUnfold(b: seq<byte>)
    requires |b| > 3
    ensures Encode(b) == EncodeGroup(b[0], b[1], b[2]) + Encode(b[3..])
  {
  }

  /** A byte string is its first three bytes followed by the rest. */
  lemma FirstGroup(b: seq<byte>)
    requires |b| >= 3
    ensures [b[0], b[1], b[2]] + b[3..] == b
  {
  }

  /** One full group in front of input that round-trips. */
  lemma DecodeEncodeGroup(b: seq<byte>)
    requires |b| > 3
    requires Decode(Encode(b[3..])) == Some(b[3..])
    ensures Decode(Encode(b)) == Some(b)
  {
    var q := EncodeGroup(b[0], b[1], b[2]);
    var s := Encode(b);
    EncodeUnfold(b);
    assert s[..4] == q && s[4..] == Encode(b[3..]);
    assert s[0] == q[0] && s[1] == q[1] && s[2] == q[2] && s[3] == q[3];
    GroupRoundTrip(b[0], b[1], b[2]);
    DecodeStep(s);
    FirstGroup(b);
  }

  /** Round trip: every byte string survives encoding and decoding. */
  lemma {:induction false} DecodeEncode(b: seq<byte>)
    ensures Decode(Encode(b)) == Some(b)
  {
    if |b| == 1 {
      DecodeEncodeOne(b[0]);
      assert b == [b[0]];
    } else if |b| == 2 {
      DecodeEncodeTwo(b[0], b[1]);
      assert b == [b[0], b[1]];
    } else if |b| == 3 {
      FirstGroup(b);
      assert b[3..] == [];
      assert b == [b[0], b[1], b[2]];
      DecodeEncodeThree(b[0], b[1], b[2]);
    } else if |b| > 3 {
      DecodeEncode(b[3..]);
      DecodeEncodeGroup(b);
    }
  }

  /** A full group of symbols is the encoding of the bytes it decodes to. */
  lemma GroupCanonical(c0: char, c1: char, c2: char, c3: char)
    requires IsSymbol(c0) && IsSymbol(c1) && IsSymbol(c2) && IsSymbol(c3)
    ensures var g := DecodeGroup(ValueOf(c0), ValueOf(c1), ValueOf(c2), ValueOf(c3));
      EncodeGroup(g[0], g[1], g[2]) == [c0, c1, c2, c3]
  {
    SymbolValue(0, c0);
    SymbolValue(0, c1);
    SymbolValue(0, c2);
    SymbolValue(0, c3);
    PlaceCanonical(ValueOf(c0), ValueOf(c1), ValueOf(c2), ValueOf(c3));
  }

  /** Six-bit values regrouped into bytes and back. */
  lemma PlaceCanonical(i0: int, i1: int, i2: int, i3: int)
    requires 0 <= i0 < 64 && 0 <= i1 < 64 && 0 <= i2 < 64 && 0 <= i3 < 64
    ensures var g := DecodeGroup(i0, i1, i2, i3);
      && g[0] / 4 == i0 && (g[0] % 4) * 16 + g[1] / 16 == i1
      && (g[1] % 16) * 4 + g[2] / 64 == i2 && g[2] % 64 == i3
  {
    PlaceValue(i0, i1 / 16);
    PlaceValue(i1 % 16, i2 / 4);
    PlaceValue(i2 % 4, i3);
    assert i1 == (i1 / 16) * 16 + i1 % 16;
    assert i2 == (i2 / 4) * 4 + i2 % 4;
  }

  /** An accepted final quadruple is the encoding of the bytes it decodes to. */
  lemma FinalCanonical(q: string)
    requires |q| == 4 && DecodeFinal(q).Some?
    ensures Encode(DecodeFinal(q).value) == q
  {
    if IsSymbol(q[3]) {
      GroupCanonical(q[0], q[1], q[2], q[3]);
    } else if IsSymbol(q[2]) {
      FinalCanonicalOnePad(q);
    } else {
      FinalCanonicalTwoPads(q);
    }
  }

  /** A final quadruple with one pad spells its two bytes. */
  lemma FinalCanonicalOnePad(q: string)
    requires |q| == 4 && IsSymbol(q[0]) && IsSymbol(q[1]) && IsSymbol(q[2]) && q[3] == Padding
    requires ValueOf(q[2]) % 4 == 0
    ensures Encode(DecodeGroup(ValueOf(q[0]), ValueOf(q[1]), ValueOf(q[2]), 0)[..2]) == q
  {
    SymbolValue(0, q[0]);
    SymbolValue(0, q[1]);
    SymbolValue(0, q[2]);
    var g := DecodeGroup(ValueOf(q[0]), ValueOf(q[1]), ValueOf(q[2]), 0);
    PlaceCanonical(ValueOf(q[0]), ValueOf(q[1]), ValueOf(q[2]), 0);
    assert g[2] / 64 == 0;
    assert q == [q[0], q[1], q[2], Padding];
  }

  /** A final quadruple with two pads spells its one byte. */
  lemma FinalCanonicalTwoPads(q: string)
    requires |q| == 4 && IsSymbol(q[0]) && IsSymbol(q[1]) && q[2] == Padding && q[3] == Padding
    requires ValueOf(q[1]) % 16 == 0
    ensures Encode(DecodeGroup(ValueOf(q[0]), ValueOf(q[1]), 0, 0)[..1]) == q
  {
    SymbolValue(0, q[0]);
    SymbolValue(0, q[1]);
    var g := DecodeGroup(ValueOf(q[0]), ValueOf(q[1]), 0, 0);
    PlaceCanonical(ValueOf(q[0]), ValueOf(q[1]), 0, 0);
    assert g[1] / 16 == 0;
    assert q == [q[0], q[1], Padding, Padding];
  }

  /** A string is its first four characters followed by the rest. */
  lemma FirstQuad(s: string)
    requires |s| >= 4
    ensures [s[0], s[1], s[2], s[3]] + s[4..] == s
  {
  }

  /** The converse round trip: the decoder accepts only the encoder's output,
      so each byte string has exactly one spelling. */
  lemma {:induction false} EncodeDecode(s: string)
    requires Decode(s).Some?
    ensures Encode(Decode(s).value) == s
  {
    if |s| == 4 {
      FinalCanonical(s);
    } else if |s| > 4 {
      var g := DecodeGroup(ValueOf(s[0]), ValueOf(s[1]), ValueOf(s[2]), ValueOf(s[3]));
      var rest := Decode(s[4..]).value;
      DecodeStep(s);
      EncodeDecode(s[4..]);
      GroupCanonical(s[0], s[1], s[2], s[3]);
      var b := g + rest;
      assert Decode(s).value == b;
      assert |rest| > 0;
      assert b[3..] == rest;
      assert Encode(b) == EncodeGroup(b[0], b[1], b[2]) + Encode(rest);
      FirstQuad(s);
    }
  }
}
