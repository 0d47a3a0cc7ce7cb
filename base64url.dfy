/** Go's `base64.RawURLEncoding.EncodeToString`: the URL- and file-name-safe
    alphabet of section 5 of RFC 4648, without `=` padding. Refresh tokens
    and their stored hashes are written in this encoding. */
module Base64Url {
  import opened Common

  type Sextet = x: int | 0 <= x < 64

  /** The 64 characters of the alphabet: A-Z, a-z, 0-9, '-' and '_'. */
  predicate IsUrlChar(c: char) {
    ('A' <= c <= 'Z') || ('a' <= c <= 'z') || ('0' <= c <= '9') || c == '-' || c == '_'
  }

  function Char(v: Sextet): (c: char)
    ensures IsUrlChar(c)
  {
    if v < 26 then ('A' as int + v) as char
    else if v < 52 then ('a' as int + (v - 26)) as char
    else if v < 62 then ('0' as int + (v - 52)) as char
    else if v == 62 then '-'
    else '_'
  }

  /** The alphabet position of `c` (0 for a character outside the alphabet). */
  function Value(c: char): Sextet {
    if 'A' <= c <= 'Z' then c as int - 'A' as int
    else if 'a' <= c <= 'z' then c as int - 'a' as int + 26
    else if '0' <= c <= '9' then c as int - '0' as int + 52
    else if c == '-' then 62
    else if c == '_' then 63
    else 0
  }

  /** The four characters of a full 3-byte group. */
  function Quad(b0: Byte, b1: Byte, b2: Byte): string {
    [Char(b0 / 4), Char((b0 % 4) * 16 + b1 / 16), Char((b1 % 16) * 4 + b2 / 64), Char(b2 % 64)]
  }

  /** Every 3 input bytes become 4 characters; a trailing 1 or 2 bytes
      become 2 or 3 characters, with no padding. */
  function Encode(b: seq<Byte>): string
    decreases |b|
  {
    if |b| == 0 then ""
    else if |b| == 1 then [Char(b[0] / 4), Char((b[0] % 4) * 16)]
    else if |b| == 2 then [Char(b[0] / 4), Char((b[0] % 4) * 16 + b[1] / 16), Char((b[1] % 16) * 4)]
    else Quad(b[0], b[1], b[2]) + Encode(b[3..])
  }

  /** The three bytes of a full 4-character group. */
  function Triple(c0: char, c1: char, c2: char, c3: char): seq<Byte> {
    [Value(c0) * 4 + Value(c1) / 16, (Value(c1) % 16) * 16 + Value(c2) / 4, (Value(c2) % 4) * 64 + Value(c3)]
  }

  /** The inverse of Encode, used to show that Encode loses nothing. */
  function Decode(s: string): seq<Byte>
    decreases |s|
  {
    if |s| < 2 then []
    else if |s| == 2 then [Value(s[0]) * 4 + Value(s[1]) / 16]
    else if |s| == 3 then [Value(s[0]) * 4 + Value(s[1]) / 16, (Value(s[1]) % 16) * 16 + Value(s[2]) / 4]
    else Triple(s[0], s[1], s[2], s[3]) + Decode(s[4..])
  }

  /** The unpadded length: ceil(4n / 3) characters for n bytes. */
  lemma {:induction false} EncodeLength(b: seq<Byte>)
    ensures |Encode(b)| == (4 * |b| + 2) / 3
    decreases |b|
  {
    if |b| >= 3 {
      EncodeLength(b[3..]);
    }
  }

  /** Every character of the encoding is in the URL-safe alphabet. */
  lemma {:induction false} EncodeAlphabet(b: seq<Byte>)
    ensures forall i :: 0 <= i < |Encode(b)| ==> IsUrlChar(Encode(b)[i])
    decreases |b|
  {
    if |b| >= 3 {
      EncodeAlphabet(b[3..]);
    }
  }

  lemma CharValue(v: Sextet)
    ensures Value(Char(v)) == v
  {
  }

  lemma FirstByte(b0: Byte, b1: Byte)
    ensures (b0 / 4) * 4 + ((b0 % 4) * 16 + b1 / 16) / 16 == b0
    ensures ((b0 % 4) * 16 + b1 / 16) % 16 == b1 / 16
  {
    var r, h := b0 % 4, b1 / 16;
    assert 0 <= h < 16;
    assert (r * 16 + h) / 16 == r;
    assert (r * 16 + h) % 16 == h;
  }

  lemma SecondByte(b1: Byte, b2: Byte)
    ensures (b1 / 16) * 16 + ((b1 % 16) * 4 + b2 / 64) / 4 == b1
    ensures ((b1 % 16) * 4 + b2 / 64) % 4 == b2 / 64
  {
    var l, h := b1 % 16, b2 / 64;
    assert 0 <= h < 4;
    assert (l * 4 + h) / 4 == l;
    assert (l * 4 + h) % 4 == h;
  }

  lemma QuadRoundTrip(b0: Byte, b1: Byte, b2: Byte)
    ensures var q := Quad(b0, b1, b2); Triple(q[0], q[1], q[2], q[3]) == [b0, b1, b2]
  {
    var v0: Sextet, v1: Sextet, v2: Sextet, v3: Sextet := b0 / 4, (b0 % 4) * 16 + b1 / 16, (b1 % 16) * 4 + b2 / 64, b2 % 64;
    CharValue(v0);
    CharValue(v1);
    CharValue(v2);
    CharValue(v3);
    FirstByte(b0, b1);
    SecondByte(b1, b2);
    assert (b2 / 64) * 64 + b2 % 64 == b2;
  }

  lemma OneByteRoundTrip(b0: Byte)
    ensures Decode(Encode([b0])) == [b0]
  {
    var v0: Sextet, v1: Sextet := b0 / 4, (b0 % 4) * 16;
    var s := [Char(v0), Char(v1)];
    assert Encode([b0]) == s;
    CharValue(v0);
    CharValue(v1);
    FirstByte(b0, 0);
    assert Decode(s) == [Value(s[0]) * 4 + Value(s[1]) / 16];
  }

  lemma TwoBytesRoundTrip(b0: Byte, b1: Byte)
    ensures Decode(Encode([b0, b1])) == [b0, b1]
  {
    var v0: Sextet, v1: Sextet, v2: Sextet := b0 / 4, (b0 % 4) * 16 + b1 / 16, (b1 % 16) * 4;
    var s := [Char(v0), Char(v1), Char(v2)];
    assert Encode([b0, b1]) == s;
    CharValue(v0);
    CharValue(v1);
    CharValue(v2);
    FirstByte(b0, b1);
    SecondByte(b1, 0);
    assert Decode(s) == [Value(s[0]) * 4 + Value(s[1]) / 16, (Value(s[1]) % 16) * 16 + Value(s[2]) / 4];
  }

  /** Decoding an encoding gives back the bytes. */
  lemma {:induction false} DecodeEncode(b: seq<Byte>)
    ensures Decode(Encode(b)) == b
    decreases |b|
  {
    if |b| == 0 {
    } else if |b| == 1 {
      assert b == [b[0]];
      OneByteRoundTrip(b[0]);
    } else if |b| == 2 {
      assert b == [b[0], b[1]];
      TwoBytesRoundTrip(b[0], b[1]);
    } else {
      var q := Quad(b[0], b[1], b[2]);
      var rest := Encode(b[3..]);
      var s := q + rest;
      assert Encode(b) == s;
      assert s[0] == q[0] && s[1] == q[1] && s[2] == q[2] && s[3] == q[3];
      assert s[4..] == rest;
      assert Decode(s) == Triple(q[0], q[1], q[2], q[3]) + Decode(rest);
      QuadRoundTrip(b[0], b[1], b[2]);
      DecodeEncode(b[3..]);
      assert b == [b[0], b[1], b[2]] + b[3..];
    }
  }

  /** Distinct byte strings have distinct encodings. */
  lemma EncodeInjective(a: seq<Byte>, b: seq<Byte>)
    requires Encode(a) == Encode(b)
    ensures a == b
  {
    DecodeEncode(a);
    DecodeEncode(b);
  }
}
