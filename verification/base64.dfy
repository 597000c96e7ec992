/**
 * `Buffer.from(s).toString("base64")`: the UTF-8 bytes of a string (RFC 3629,
 * section 3) written in the base 64 alphabet of RFC 4648, section 4, with `=`
 * padding. The decoders are ghost: they exist to prove that the encoding loses
 * nothing.
 */
module Base64 {

  type Byte = b: int | 0 <= b < 256

  /** How many bytes a UTF-8 sequence has, read from its first byte. */
  function LeadLength(b: Byte): nat
  {
    if b < 0x80 then 1 else if b < 0xE0 then 2 else if b < 0xF0 then 3 else 4
  }

  /** The UTF-8 bytes of one Unicode scalar value. */
  function Utf8Char(c: char): (bs: seq<Byte>)
    ensures 1 <= |bs| <= 4
    ensures |bs| == LeadLength(bs[0])
  {
    var cp := c as int;
    if cp < 0x80 then [cp]
    else if cp < 0x800 then [0xC0 + cp / 64, 0x80 + cp % 64]
    else if cp < 0x10000 then [0xE0 + cp / 4096, 0x80 + (cp / 64) % 64, 0x80 + cp % 64]
    else [0xF0 + cp / 262144, 0x80 + (cp / 4096) % 64, 0x80 + (cp / 64) % 64, 0x80 + cp % 64]
  }

  /** The UTF-8 bytes of a string. */
  function Utf8(s: string): (bs: seq<Byte>)
    ensures |bs| >= |s|
    ensures s == [] <==> bs == []
  {
    if s == [] then [] else Utf8Char(s[0]) + Utf8(s[1..])
  }

  /** The scalar value a UTF-8 sequence of one to four bytes stands for. */
  ghost function CodePoint(bs: seq<int>): int
    requires 1 <= |bs| <= 4
  {
    if |bs| == 1 then bs[0]
    else if |bs| == 2 then (bs[0] - 0xC0) * 64 + (bs[1] - 0x80)
    else if |bs| == 3 then ((bs[0] - 0xE0) * 64 + (bs[1] - 0x80)) * 64 + (bs[2] - 0x80)
    else (((bs[0] - 0xF0) * 64 + (bs[1] - 0x80)) * 64 + (bs[2] - 0x80)) * 64 + (bs[3] - 0x80)
  }

  /** Decoding the bytes of one character gives that character back. */
  lemma CodePointOfUtf8Char(c: char)
    ensures CodePoint(Utf8Char(c)) == c as int
  {
    var cp := c as int;
    var q1, r1 := cp / 64, cp % 64;
    var q2, r2 := q1 / 64, q1 % 64;
    var q3, r3 := q2 / 64, q2 % 64;
    assert cp == 64 * q1 + r1;
    assert q1 == 64 * q2 + r2;
    assert q2 == 64 * q3 + r3;
    assert cp == 4096 * q2 + (64 * r2 + r1);
    assert cp / 4096 == q2;
    assert cp == 262144 * q3 + (4096 * r3 + 64 * r2 + r1);
    assert cp / 262144 == q3;
    assert (cp / 4096) % 64 == r3;
  }

  /** Different strings have different UTF-8 bytes. */
  lemma {:induction false} Utf8Injective(s: string, t: string)
    requires Utf8(s) == Utf8(t)
    ensures s == t
    decreases |s|
  {
    if s != [] {
      var a, b := Utf8Char(s[0]), Utf8Char(t[0]);
      assert Utf8(s) == a + Utf8(s[1..]);
      assert Utf8(t) == b + Utf8(t[1..]);
      assert a[0] == Utf8(s)[0] == b[0];
      assert |a| == |b|;
      assert a == Utf8(s)[..|a|] == b;
      CodePointOfUtf8Char(s[0]);
      CodePointOfUtf8Char(t[0]);
      assert s[0] == t[0];
      assert Utf8(s[1..]) == Utf8(s)[|a|..] == Utf8(t[1..]);
      Utf8Injective(s[1..], t[1..]);
    }
  }

  /** The base 64 alphabet of RFC 4648, section 4, Table 1: `A`-`Z`, `a`-`z`, `0`-`9`, `+`, `/`. */
  function Sextet(i: int): (c: char)
    requires 0 <= i < 64
  {
    if i < 26 then ('A' as int + i) as char
    else if i < 52 then ('a' as int + (i - 26)) as char
    else if i < 62 then ('0' as int + (i - 52)) as char
    else if i == 62 then '+'
    else '/'
  }

  /** A character of the base 64 alphabet. */
  predicate InAlphabet(c: char)
  {
    'A' <= c <= 'Z' || 'a' <= c <= 'z' || '0' <= c <= '9' || c == '+' || c == '/'
  }

  /** The value of an alphabet character (Table 1 read backwards). */
  ghost function SextetValue(c: char): (v: int)
    ensures 0 <= v < 64
  {
    if 'A' <= c <= 'Z' then c as int - 'A' as int
    else if 'a' <= c <= 'z' then c as int - 'a' as int + 26
    else if '0' <= c <= '9' then c as int - '0' as int + 52
    else if c == '+' then 62
    else 63
  }

  lemma SextetRoundTrip(i: int)
    requires 0 <= i < 64
    ensures InAlphabet(Sextet(i)) && Sextet(i) != '='
    ensures SextetValue(Sextet(i)) == i
  {
  }

  /** Base 64 encoding of a byte string: every 3 bytes become 4 characters, the last group padded with `=`. */
  function Encode(bs: seq<Byte>): (s: string)
    ensures |s| == 4 * ((|bs| + 2) / 3)
    decreases |bs|
  {
    if |bs| == 0 then []
    else if |bs| == 1 then
      [Sextet(bs[0] / 4), Sextet((bs[0] % 4) * 16), '=', '=']
    else if |bs| == 2 then
      [Sextet(bs[0] / 4), Sextet((bs[0] % 4) * 16 + bs[1] / 16), Sextet((bs[1] % 16) * 4), '=']
    else
      [Sextet(bs[0] / 4), Sextet((bs[0] % 4) * 16 + bs[1] / 16),
       Sextet((bs[1] % 16) * 4 + bs[2] / 64), Sextet(bs[2] % 64)] + Encode(bs[3..])
  }

  /** Every character of an encoding is in the alphabet or is the pad `=`. */
  lemma {:induction false} EncodeAlphabet(bs: seq<Byte>)
    ensures forall i :: 0 <= i < |Encode(bs)| ==> InAlphabet(Encode(bs)[i]) || Encode(bs)[i] == '='
    decreases |bs|
  {
    if |bs| >= 3 {
      EncodeAlphabet(bs[3..]);
      var x0, x1 := bs[0] / 4, (bs[0] % 4) * 16 + bs[1] / 16;
      var x2, x3 := (bs[1] % 16) * 4 + bs[2] / 64, bs[2] % 64;
      SextetRoundTrip(x0);
      SextetRoundTrip(x1);
      SextetRoundTrip(x2);
      SextetRoundTrip(x3);
      var g := [Sextet(x0), Sextet(x1), Sextet(x2), Sextet(x3)];
      assert Encode(bs) == g + Encode(bs[3..]);
    } else if |bs| == 2 {
      SextetRoundTrip(bs[0] / 4);
      SextetRoundTrip((bs[0] % 4) * 16 + bs[1] / 16);
      SextetRoundTrip((bs[1] % 16) * 4);
    } else if |bs| == 1 {
      SextetRoundTrip(bs[0] / 4);
      SextetRoundTrip((bs[0] % 4) * 16);
    }
  }

  /** Base 64 decoding, read group by group; a `=` in the third or fourth place ends the data. */
  ghost function Decode(s: string): seq<Byte>
    decreases |s|
  {
    if |s| < 4 then []
    else
      var v0, v1, v2, v3 := SextetValue(s[0]), SextetValue(s[1]), SextetValue(s[2]), SextetValue(s[3]);
      var b0: Byte := v0 * 4 + v1 / 16;
      if s[2] == '=' then [b0]
      else
        var b1: Byte := (v1 % 16) * 16 + v2 / 4;
        if s[3] == '=' then [b0, b1]
        else [b0, b1, (v2 % 4) * 64 + v3] + Decode(s[4..])
  }

  /** The bit arithmetic of one full group: the four sextets give the three bytes back. */
  lemma GroupArithmetic(b0: Byte, b1: Byte, b2: Byte)
    ensures ((b0 % 4) * 16 + b1 / 16) / 16 == b0 % 4
    ensures ((b0 % 4) * 16 + b1 / 16) % 16 == b1 / 16
    ensures ((b1 % 16) * 4 + b2 / 64) / 4 == b1 % 16
    ensures ((b1 % 16) * 4 + b2 / 64) % 4 == b2 / 64
  {
  }

  /** Decoding the last, padded group of one byte. */
  lemma DecodeOne(bs: seq<Byte>)
    requires |bs| == 1
    ensures Decode(Encode(bs)) == bs
  {
    var x0, x1 := bs[0] / 4, (bs[0] % 4) * 16;
    SextetRoundTrip(x0);
    SextetRoundTrip(x1);
  }

  /** Decoding the last, padded group of two bytes. */
  lemma DecodeTwo(bs: seq<Byte>)
    requires |bs| == 2
    ensures Decode(Encode(bs)) == bs
  {
    var x0, x1, x2 := bs[0] / 4, (bs[0] % 4) * 16 + bs[1] / 16, (bs[1] % 16) * 4;
    SextetRoundTrip(x0);
    SextetRoundTrip(x1);
    SextetRoundTrip(x2);
    GroupArithmetic(bs[0], bs[1], 0);
    var s := Encode(bs);
    assert s == [Sextet(x0), Sextet(x1), Sextet(x2), '='];
    assert SextetValue(s[0]) == x0 && SextetValue(s[1]) == x1 && SextetValue(s[2]) == x2;
    assert s[2] != '=' && s[3] == '=';
    var b0: Byte := x0 * 4 + x1 / 16;
    var b1: Byte := (x1 % 16) * 16 + x2 / 4;
    assert b0 == bs[0];
    assert b1 == bs[1];
    assert Decode(s) == [b0, b1];
  }

  /** The bytes a full group of four alphabet characters decodes to. */
  lemma FullGroupBytes(x0: int, x1: int, x2: int, x3: int, b0: Byte, b1: Byte, b2: Byte)
    requires x0 == b0 / 4 && x1 == (b0 % 4) * 16 + b1 / 16
    requires x2 == (b1 % 16) * 4 + b2 / 64 && x3 == b2 % 64
    ensures x0 * 4 + x1 / 16 == b0
    ensures (x1 % 16) * 16 + x2 / 4 == b1
    ensures (x2 % 4) * 64 + x3 == b2
  {
    GroupArithmetic(b0, b1, b2);
  }

  /** Decoding reads an unpadded group and goes on with the rest. */
  lemma DecodeGroupThenRest(g: string, rest: string, b0: Byte, b1: Byte, b2: Byte)
    requires |g| == 4 && g[2] != '=' && g[3] != '='
    requires SextetValue(g[0]) * 4 + SextetValue(g[1]) / 16 == b0
    requires (SextetValue(g[1]) % 16) * 16 + SextetValue(g[2]) / 4 == b1
    requires (SextetValue(g[2]) % 4) * 64 + SextetValue(g[3]) == b2
    ensures Decode(g + rest) == [b0, b1, b2] + Decode(rest)
  {
    var s := g + rest;
    assert s[0] == g[0] && s[1] == g[1] && s[2] == g[2] && s[3] == g[3];
    assert s[4..] == rest;
  }

  lemma ConsThree(bs: seq<Byte>)
    requires |bs| >= 3
    ensures bs == [bs[0], bs[1], bs[2]] + bs[3..]
  {
  }

  /** Decoding a full group, then the rest. */
  lemma DecodeFull(bs: seq<Byte>)
    requires |bs| >= 3
    requires Decode(Encode(bs[3..])) == bs[3..]
    ensures Decode(Encode(bs)) == bs
  {
    var x0, x1 := bs[0] / 4, (bs[0] % 4) * 16 + bs[1] / 16;
    var x2, x3 := (bs[1] % 16) * 4 + bs[2] / 64, bs[2] % 64;
    SextetRoundTrip(x0);
    SextetRoundTrip(x1);
    SextetRoundTrip(x2);
    SextetRoundTrip(x3);
    FullGroupBytes(x0, x1, x2, x3, bs[0], bs[1], bs[2]);
    var g := [Sextet(x0), Sextet(x1), Sextet(x2), Sextet(x3)];
    var rest := Encode(bs[3..]);
    assert Encode(bs) == g + rest;
    assert g[0] == Sextet(x0) && g[1] == Sextet(x1) && g[2] == Sextet(x2) && g[3] == Sextet(x3);
    assert g[2] != '=' && g[3] != '=';
    assert SextetValue(g[0]) == x0 && SextetValue(g[1]) == x1;
    assert SextetValue(g[2]) == x2 && SextetValue(g[3]) == x3;
    DecodeGroupThenRest(g, rest, bs[0], bs[1], bs[2]);
    ConsThree(bs);
  }

  /** Decoding undoes encoding (RFC 4648, section 4). */
  lemma {:induction false} DecodeEncode(bs: seq<Byte>)
    ensures Decode(Encode(bs)) == bs
    decreases |bs|
  {
    if |bs| == 1 {
      DecodeOne(bs);
    } else if |bs| == 2 {
      DecodeTwo(bs);
    } else if |bs| >= 3 {
      DecodeEncode(bs[3..]);
      DecodeFull(bs);
    }
  }

  /** Different byte strings have different encodings. */
  lemma EncodeInjective(a: seq<Byte>, b: seq<Byte>)
    requires Encode(a) == Encode(b)
    ensures a == b
  {
    DecodeEncode(a);
    DecodeEncode(b);
  }
}
