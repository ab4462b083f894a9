/** Base64 as the messages endpoint uses it (app.js): `Buffer.from(s,
    'base64')` to decode and `toString('base64')` to encode. Encoding is the
    padded encoding of section 4 of RFC 4648. Decoding is Node's forgiving
    one: it takes both the standard and the URL-safe alphabet, skips any
    other character and stops at the first `=`. */
module Base64 {
  import opened Wrappers
  import opened ByteText

  /** A six-bit group value. */
  type Sextet = v: int | 0 <= v < 64

  /** The character encoding a six-bit group (RFC 4648, table 1). */
  function EncodeSextet(v: Sextet): (c: char)
    ensures c != '='
  {
    if v < 26 then ('A' as int + v) as char
    else if v < 52 then ('a' as int + (v - 26)) as char
    else if v < 62 then ('0' as int + (v - 52)) as char
    else if v == 62 then '+'
    else '/'
  }

  /** The value of an alphabet character; `-` and `_` are the URL-safe
      spellings of 62 and 63. Any other character has no value. */
  function SextetOf(c: char): Option<Sextet>
  {
    if 'A' <= c <= 'Z' then Some(c as int - 'A' as int)
    else if 'a' <= c <= 'z' then Some(c as int - 'a' as int + 26)
    else if '0' <= c <= '9' then Some(c as int - '0' as int + 52)
    else if c == '+' || c == '-' then Some(62)
    else if c == '/' || c == '_' then Some(63)
    else None
  }

  /** The characters the encoder can produce. */
  predicate InEncodedAlphabet(c: char)
  {
    'A' <= c <= 'Z' || 'a' <= c <= 'z' || '0' <= c <= '9' || c == '+' || c == '/' || c == '='
  }

  lemma SextetRoundTrip(v: Sextet)
    ensures SextetOf(EncodeSextet(v)) == Some(v)
    ensures InEncodedAlphabet(EncodeSextet(v))
  {
  }

  /** The four six-bit values of a group of three bytes `b0 b1 b2`. */
  function HighSix(b0: Byte): Sextet { b0 / 4 }
  function SecondSix(b0: Byte, b1: Byte): Sextet { b0 % 4 * 16 + b1 / 16 }
  function ThirdSix(b1: Byte, b2: Byte): Sextet { b1 % 16 * 4 + b2 / 64 }
  function LowSix(b2: Byte): Sextet { b2 % 64 }

  /** The three bytes of a group of four six-bit values `v0 v1 v2 v3`. */
  function FirstByte(v0: Sextet, v1: Sextet): Byte { v0 * 4 + v1 / 16 }
  function SecondByte(v1: Sextet, v2: Sextet): Byte { v1 % 16 * 16 + v2 / 4 }
  function ThirdByte(v2: Sextet, v3: Sextet): Byte { v2 % 4 * 64 + v3 }

  /** `toString('base64')`: each group of three bytes becomes four
      characters; a final group of one or two bytes is padded with `=`. */
  function Encode(b: seq<Byte>): string
    decreases |b|
  {
    if |b| == 0 then ""
    else if |b| == 1 then
      [EncodeSextet(HighSix(b[0])), EncodeSextet(SecondSix(b[0], 0)), '=', '=']
    else if |b| == 2 then
      [EncodeSextet(HighSix(b[0])), EncodeSextet(SecondSix(b[0], b[1])), EncodeSextet(ThirdSix(b[1], 0)), '=']
    else
      [EncodeSextet(HighSix(b[0])), EncodeSextet(SecondSix(b[0], b[1])),
       EncodeSextet(ThirdSix(b[1], b[2])), EncodeSextet(LowSix(b[2]))] + Encode(b[3..])
  }

  /** An encoding is whole groups of four characters. */
  lemma {:induction false} EncodedLength(b: seq<Byte>)
    ensures |Encode(b)| % 4 == 0
    decreases |b|
  {
    if |b| >= 3 {
      EncodedLength(b[3..]);
      assert (4 + |Encode(b[3..])|) % 4 == 0;
    }
  }

  /** The six-bit values the decoder reads: alphabet characters up to the
      first `=`, anything else skipped. */
  function Sextets(s: string): seq<Sextet>
  {
    if s == [] || s[0] == '=' then []
    else match SextetOf(s[0])
      case None => Sextets(s[1..])
      case Some(v) => [v] + Sextets(s[1..])
  }

  /** Four values give three bytes; a final run of three gives two, of two
      gives one, and a lone value gives nothing. */
  function DecodeSextets(v: seq<Sextet>): seq<Byte>
    decreases |v|
  {
    if |v| >= 4 then
      [FirstByte(v[0], v[1]), SecondByte(v[1], v[2]), ThirdByte(v[2], v[3])] + DecodeSextets(v[4..])
    else if |v| == 3 then [FirstByte(v[0], v[1]), SecondByte(v[1], v[2])]
    else if |v| == 2 then [FirstByte(v[0], v[1])]
    else []
  }

  /** `Buffer.from(s, 'base64')`. */
  function Decode(s: string): seq<Byte>
  {
    DecodeSextets(Sextets(s))
  }

  /** `isValidBase64(str)`: decoding and re-encoding gives `str` back. */
  predicate IsValidBase64(s: string)
  {
    Encode(Decode(s)) == s
  }

  /** The decoder reads back the value of an encoder character. */
  lemma SextetsCons(v: Sextet, rest: string)
    ensures Sextets([EncodeSextet(v)] + rest) == [v] + Sextets(rest)
  {
    SextetRoundTrip(v);
    assert ([EncodeSextet(v)] + rest)[1..] == rest;
  }

  /** The three bytes of a group come back from its four values. */
  lemma GroupRoundTrip(b0: Byte, b1: Byte, b2: Byte)
    ensures FirstByte(HighSix(b0), SecondSix(b0, b1)) == b0
    ensures SecondByte(SecondSix(b0, b1), ThirdSix(b1, b2)) == b1
    ensures ThirdByte(ThirdSix(b1, b2), LowSix(b2)) == b2
  {
  }

  /** The values the decoder reads from a padded final group of one byte. */
  lemma SextetsOfPaddedPair(v0: Sextet, v1: Sextet)
    ensures Sextets([EncodeSextet(v0), EncodeSextet(v1), '=', '=']) == [v0, v1]
  {
    var e1 := [EncodeSextet(v1)] + "==";
    assert [EncodeSextet(v0), EncodeSextet(v1), '=', '='] == [EncodeSextet(v0)] + e1;
    SextetsCons(v0, e1);
    SextetsCons(v1, "==");
    assert Sextets("==") == [];
  }

  /** What the decoder reads back from the encoding of one byte. */
  lemma DecodedOne(b: seq<Byte>)
    requires |b| == 1
    ensures Decode(Encode(b)) == [FirstByte(HighSix(b[0]), SecondSix(b[0], 0))]
  {
    var v0, v1 := HighSix(b[0]), SecondSix(b[0], 0);
    assert Encode(b) == [EncodeSextet(v0), EncodeSextet(v1), '=', '='];
    SextetsOfPaddedPair(v0, v1);
    assert DecodeSextets([v0, v1]) == [FirstByte(v0, v1)];
  }

  /** What the decoder reads back from the encoding of two bytes. */
  lemma DecodedTwo(b: seq<Byte>)
    requires |b| == 2
    ensures Decode(Encode(b)) ==
      [FirstByte(HighSix(b[0]), SecondSix(b[0], b[1])), SecondByte(SecondSix(b[0], b[1]), ThirdSix(b[1], 0))]
  {
    var v0, v1, v2 := HighSix(b[0]), SecondSix(b[0], b[1]), ThirdSix(b[1], 0);
    var e2 := [EncodeSextet(v2)] + "=";
    var e1 := [EncodeSextet(v1)] + e2;
    assert Encode(b) == [EncodeSextet(v0)] + e1;
    SextetsCons(v0, e1);
    SextetsCons(v1, e2);
    SextetsCons(v2, "=");
    assert Sextets("=") == [];
    assert Sextets(Encode(b)) == [v0, v1, v2];
    assert DecodeSextets([v0, v1, v2]) == [FirstByte(v0, v1), SecondByte(v1, v2)];
  }

  /** The decoder reads back the values of four encoder characters. */
  lemma SextetsOfFour(v0: Sextet, v1: Sextet, v2: Sextet, v3: Sextet, rest: string)
    ensures Sextets([EncodeSextet(v0), EncodeSextet(v1), EncodeSextet(v2), EncodeSextet(v3)] + rest) ==
      [v0, v1, v2, v3] + Sextets(rest)
  {
    var e3 := [EncodeSextet(v3)] + rest;
    var e2 := [EncodeSextet(v2)] + e3;
    var e1 := [EncodeSextet(v1)] + e2;
    assert [EncodeSextet(v0), EncodeSextet(v1), EncodeSextet(v2), EncodeSextet(v3)] + rest == [EncodeSextet(v0)] + e1;
    SextetsCons(v3, rest);
    SextetsCons(v2, e3);
    assert Sextets(e2) == [v2, v3] + Sextets(rest);
    SextetsCons(v1, e2);
    assert Sextets(e1) == [v1, v2, v3] + Sextets(rest);
    SextetsCons(v0, e1);
  }

  /** The values the decoder reads from a full group and the rest. */
  lemma SextetsOfGroup(b: seq<Byte>)
    requires |b| >= 3
    ensures Sextets(Encode(b)) ==
      [HighSix(b[0]), SecondSix(b[0], b[1]), ThirdSix(b[1], b[2]), LowSix(b[2])] + Sextets(Encode(b[3..]))
  {
    SextetsOfFour(HighSix(b[0]), SecondSix(b[0], b[1]), ThirdSix(b[1], b[2]), LowSix(b[2]), Encode(b[3..]));
  }

  /** What the decoder reads back from a full group and the rest. */
  lemma DecodedGroup(b: seq<Byte>)
    requires |b| >= 3
    ensures var v0, v1, v2, v3 := HighSix(b[0]), SecondSix(b[0], b[1]), ThirdSix(b[1], b[2]), LowSix(b[2]);
      Decode(Encode(b)) == [FirstByte(v0, v1), SecondByte(v1, v2), ThirdByte(v2, v3)] + Decode(Encode(b[3..]))
  {
    SextetsOfGroup(b);
    var w := Sextets(Encode(b));
    assert w[4..] == Sextets(Encode(b[3..]));
  }

  /** Decoding undoes encoding. */
  lemma {:induction false} DecodeEncode(b: seq<Byte>)
    ensures Decode(Encode(b)) == b
    decreases |b|
  {
    if |b| == 1 {
      DecodedOne(b);
      assert b == [b[0]];
      GroupRoundTrip(b[0], 0, 0);
    } else if |b| == 2 {
      DecodedTwo(b);
      assert b == [b[0], b[1]];
      GroupRoundTrip(b[0], b[1], 0);
    } else if |b| >= 3 {
      DecodedGroup(b);
      DecodeEncode(b[3..]);
      assert b == [b[0], b[1], b[2]] + b[3..];
      GroupRoundTrip(b[0], b[1], b[2]);
    }
  }

  /** Every encoding is valid. */
  lemma EncodingIsValid(b: seq<Byte>)
    ensures IsValidBase64(Encode(b))
  {
    DecodeEncode(b);
  }

  /** A string is valid exactly when it is the encoding of some bytes. */
  lemma ValidIffEncoding(s: string)
    ensures IsValidBase64(s) <==> exists b :: Encode(b) == s
  {
    if exists b :: Encode(b) == s {
      var b :| Encode(b) == s;
      DecodeEncode(b);
    }
  }

  /** An encoding uses only alphabet characters and `=`. */
  lemma {:induction false} EncodedAlphabet(b: seq<Byte>)
    ensures forall i :: 0 <= i < |Encode(b)| ==> InEncodedAlphabet(Encode(b)[i])
    decreases |b|
  {
    var s := Encode(b);
    if |b| >= 3 {
      EncodedAlphabet(b[3..]);
      forall i | 0 <= i < |s| ensures InEncodedAlphabet(s[i]) {
        if i >= 4 {
          assert s[i] == Encode(b[3..])[i - 4];
        }
      }
    }
  }

  /** A string with a character outside the alphabet, such as the `<` of XML
      text or the `.` of a file name, is never valid. */
  lemma ForeignCharacterInvalid(s: string, i: nat)
    requires i < |s| && !InEncodedAlphabet(s[i])
    ensures !IsValidBase64(s)
  {
    EncodedAlphabet(Decode(s));
  }
}
