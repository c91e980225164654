/** The two Node.js `Buffer` conversions behind `urlToCacheKey`:
    `Buffer.from(s)` (UTF-8 encoding) and `toString("base64")` (the standard
    alphabet with `=` padding, section 4 of RFC 4648), each with its decoder
    and the round trip that makes the key injective. */
module Encoding {
  import opened Wrappers

  newtype byte = x: int | 0 <= x < 256

  // ---------------------------------------------------------------------------
  // UTF-8
  // ---------------------------------------------------------------------------

  predicate IsScalar(n: int) {
    0 <= n < 0xD800 || 0xE000 <= n < 0x11_0000
  }

  /** The one to four bytes of one Unicode scalar value. */
  function EncodeChar(c: char): (b: seq<byte>)
    ensures 1 <= |b| <= 4
  {
    var n := c as int;
    if n < 0x80 then [n as byte]
    else if n < 0x800 then [(0xC0 + n / 64) as byte, (0x80 + n % 64) as byte]
    else if n < 0x1_0000 then
      [(0xE0 + n / 4096) as byte, (0x80 + n / 64 % 64) as byte, (0x80 + n % 64) as byte]
    else
      [(0xF0 + n / 262144) as byte, (0x80 + n / 4096 % 64) as byte,
       (0x80 + n / 64 % 64) as byte, (0x80 + n % 64) as byte]
  }

  /** The sequence length announced by a leading byte. */
  function LeadLength(b0: byte): nat {
    if b0 < 0x80 then 1 else if b0 < 0xE0 then 2 else if b0 < 0xF0 then 3 else 4
  }

  /** Reads one scalar value from the front of `b`: the value and the bytes it used. */
  function DecodeChar(b: seq<byte>): Option<(char, nat)>
    requires |b| > 0
  {
    var len := LeadLength(b[0]);
    if |b| < len then None
    else
      var n :=
        if len == 1 then b[0] as int
        else if len == 2 then (b[0] as int - 0xC0) * 64 + (b[1] as int - 0x80)
        else if len == 3 then (b[0] as int - 0xE0) * 4096 + (b[1] as int - 0x80) * 64 + (b[2] as int - 0x80)
        else (b[0] as int - 0xF0) * 262144 + (b[1] as int - 0x80) * 4096 + (b[2] as int - 0x80) * 64 + (b[3] as int - 0x80);
      if IsScalar(n) then Some((n as char, len)) else None
  }

  lemma DecodeTwoBytes(c: char, rest: seq<byte>)
    requires 0x80 <= c as int < 0x800
    ensures DecodeChar(EncodeChar(c) + rest) == Some((c, 2))
  {
    var n := c as int;
    var x0, x1 := 0xC0 + n / 64, 0x80 + n % 64;
    assert EncodeChar(c) == [x0 as byte, x1 as byte];
    var b := EncodeChar(c) + rest;
    assert b[0] as int == x0 && b[1] as int == x1;
    assert LeadLength(b[0]) == 2;
    assert n == (n / 64) * 64 + n % 64;
    assert (x0 - 0xC0) * 64 + (x1 - 0x80) == n;
  }

  lemma DecodeThreeBytes(c: char, rest: seq<byte>)
    requires 0x800 <= c as int < 0x1_0000
    ensures DecodeChar(EncodeChar(c) + rest) == Some((c, 3))
  {
    var n := c as int;
    var x0, x1, x2 := 0xE0 + n / 4096, 0x80 + n / 64 % 64, 0x80 + n % 64;
    assert EncodeChar(c) == [x0 as byte, x1 as byte, x2 as byte];
    var b := EncodeChar(c) + rest;
    assert b[0] as int == x0 && b[1] as int == x1 && b[2] as int == x2;
    assert LeadLength(b[0]) == 3;
    assert n % 4096 == (n / 64 % 64) * 64 + n % 64;
    assert n == (n / 4096) * 4096 + n % 4096;
    assert (x0 - 0xE0) * 4096 + (x1 - 0x80) * 64 + (x2 - 0x80) == n;
  }

  lemma DecodeFourBytes(c: char, rest: seq<byte>)
    requires 0x1_0000 <= c as int
    ensures DecodeChar(EncodeChar(c) + rest) == Some((c, 4))
  {
    var n := c as int;
    var x0, x1, x2, x3 := 0xF0 + n / 262144, 0x80 + n / 4096 % 64, 0x80 + n / 64 % 64, 0x80 + n % 64;
    assert EncodeChar(c) == [x0 as byte, x1 as byte, x2 as byte, x3 as byte];
    var b := EncodeChar(c) + rest;
    assert b[0] as int == x0 && b[1] as int == x1 && b[2] as int == x2 && b[3] as int == x3;
    assert LeadLength(b[0]) == 4;
    SixBitDigits(n);
  }

  /** A value below 2^21 is four six-bit digits. */
  lemma SixBitDigits(n: nat)
    ensures (n / 262144) * 262144 + (n / 4096 % 64) * 4096 + (n / 64 % 64) * 64 + n % 64 == n
  {
    assert n % 262144 == (n / 4096 % 64) * 4096 + n % 4096;
    assert n % 4096 == (n / 64 % 64) * 64 + n % 64;
    assert n == (n / 262144) * 262144 + n % 262144;
  }

  lemma DecodeEncodeChar(c: char, rest: seq<byte>)
    ensures DecodeChar(EncodeChar(c) + rest) == Some((c, |EncodeChar(c)|))
  {
    var n := c as int;
    if n < 0x80 {
      assert (EncodeChar(c) + rest)[0] as int == n;
    } else if n < 0x800 {
      DecodeTwoBytes(c, rest);
    } else if n < 0x1_0000 {
      DecodeThreeBytes(c, rest);
    } else {
      DecodeFourBytes(c, rest);
    }
  }

  /** `Buffer.from(s)`: the UTF-8 bytes of `s`. */
  function Utf8Encode(s: string): seq<byte>
  {
    if s == [] then [] else EncodeChar(s[0]) + Utf8Encode(s[1..])
  }

  function Utf8Decode(b: seq<byte>): Option<string>
    decreases |b|
  {
    if b == [] then Some("")
    else match DecodeChar(b)
      case None => None
      case Some((c, len)) =>
        match Utf8Decode(b[len..])
        case None => None
        case Some(s) => Some([c] + s)
  }

  lemma {:induction false} Utf8RoundTrip(s: string)
    ensures Utf8Decode(Utf8Encode(s)) == Some(s)
  {
    if s != [] {
      var e := EncodeChar(s[0]);
      DecodeEncodeChar(s[0], Utf8Encode(s[1..]));
      assert (e + Utf8Encode(s[1..]))[|e|..] == Utf8Encode(s[1..]);
      Utf8RoundTrip(s[1..]);
      assert [s[0]] + s[1..] == s;
    }
  }

  // ---------------------------------------------------------------------------
  // Base64
  // ---------------------------------------------------------------------------

  /** The character for a six-bit value in the standard alphabet. */
  function Base64Char(v: nat): (c: char)
    requires v < 64
    ensures c != '='
  {
    if v < 26 then ('A' as int + v) as char
    else if v < 52 then ('a' as int + v - 26) as char
    else if v < 62 then ('0' as int + v - 52) as char
    else if v == 62 then '+'
    else '/'
  }

  /** The six-bit value of an alphabet character (0 for anything else). */
  function Base64Value(c: char): (v: nat)
    ensures v < 64
  {
    if 'A' <= c <= 'Z' then c as int - 'A' as int
    else if 'a' <= c <= 'z' then c as int - 'a' as int + 26
    else if '0' <= c <= '9' then c as int - '0' as int + 52
    else if c == '+' then 62
    else if c == '/' then 63
    else 0
  }

  lemma Base64ValueChar(v: nat)
    requires v < 64
    ensures Base64Value(Base64Char(v)) == v
  {
  }

  /** `toString("base64")`: each three bytes become four characters; a final group of
      one or two bytes is padded with `=`. */
  function Base64Encode(b: seq<byte>): string
  {
    if |b| == 0 then ""
    else
      var b0 := b[0] as nat;
      if |b| == 1 then [Base64Char(b0 / 4), Base64Char(b0 % 4 * 16), '=', '=']
      else
        var b1 := b[1] as nat;
        if |b| == 2 then [Base64Char(b0 / 4), Base64Char(b0 % 4 * 16 + b1 / 16), Base64Char(b1 % 16 * 4), '=']
        else
          var b2 := b[2] as nat;
          [Base64Char(b0 / 4), Base64Char(b0 % 4 * 16 + b1 / 16), Base64Char(b1 % 16 * 4 + b2 / 64), Base64Char(b2 % 64)]
          + Base64Encode(b[3..])
  }

  /** The bytes packed in a quartet's six-bit values. */
  function Byte0(v0: nat, v1: nat): byte
    requires v0 < 64 && v1 < 64
  {
    (v0 * 4 + v1 / 16) as byte
  }

  function Byte1(v1: nat, v2: nat): byte
    requires v1 < 64 && v2 < 64
  {
    (v1 % 16 * 16 + v2 / 4) as byte
  }

  function Byte2(v2: nat, v3: nat): byte
    requires v2 < 64 && v3 < 64
  {
    (v2 % 4 * 64 + v3) as byte
  }

  function Base64Decode(s: string): seq<byte>
    decreases |s|
  {
    if |s| < 4 then []
    else
      var v0, v1, v2, v3 := Base64Value(s[0]), Base64Value(s[1]), Base64Value(s[2]), Base64Value(s[3]);
      if s[2] == '=' then [Byte0(v0, v1)]
      else if s[3] == '=' then [Byte0(v0, v1), Byte1(v1, v2)]
      else [Byte0(v0, v1), Byte1(v1, v2), Byte2(v2, v3)] + Base64Decode(s[4..])
  }

  /** Unpacking the six-bit values of a group gives its bytes back. */
  lemma GroupArithmetic(b0: nat, b1: nat, b2: nat)
    requires b0 < 256 && b1 < 256 && b2 < 256
    ensures Byte0(b0 / 4, b0 % 4 * 16 + b1 / 16) as nat == b0
    ensures Byte1(b0 % 4 * 16 + b1 / 16, b1 % 16 * 4 + b2 / 64) as nat == b1
    ensures Byte2(b1 % 16 * 4 + b2 / 64, b2 % 64) as nat == b2
  {
  }

  /** Decoding a quartet built from six-bit values `v0..v3` (with `v2`, `v3` standing
      for padding when absent) reads the first group off the front. */
  lemma DecodeQuartet(v0: nat, v1: nat, v2: nat, v3: nat, n: nat, rest: string)
    requires v0 < 64 && v1 < 64 && v2 < 64 && v3 < 64 && 1 <= n <= 3
    ensures var q := [Base64Char(v0), Base64Char(v1),
                      if n >= 2 then Base64Char(v2) else '=', if n == 3 then Base64Char(v3) else '='];
      Base64Decode(q + rest) ==
        if n == 1 then [Byte0(v0, v1)]
        else if n == 2 then [Byte0(v0, v1), Byte1(v1, v2)]
        else [Byte0(v0, v1), Byte1(v1, v2), Byte2(v2, v3)] + Base64Decode(rest)
  {
    var q := [Base64Char(v0), Base64Char(v1),
              if n >= 2 then Base64Char(v2) else '=', if n == 3 then Base64Char(v3) else '='];
    var s := q + rest;
    assert s[0] == Base64Char(v0) && s[1] == Base64Char(v1);
    Base64ValueChar(v0);
    Base64ValueChar(v1);
    if n >= 2 {
      assert s[2] == Base64Char(v2);
      Base64ValueChar(v2);
    }
    if n == 3 {
      assert s[3] == Base64Char(v3);
      Base64ValueChar(v3);
      assert s[4..] == rest;
    }
  }

  lemma EncodeOne(b: seq<byte>)
    requires |b| == 1
    ensures Base64Decode(Base64Encode(b)) == b
  {
    var b0 := b[0] as nat;
    GroupArithmetic(b0, 0, 0);
    var v1 := b0 % 4 * 16;
    var q := [Base64Char(b0 / 4), Base64Char(v1), '=', '='];
    assert Base64Encode(b) == q;
    DecodeQuartet(b0 / 4, v1, 0, 0, 1, "");
    assert q + "" == q;
    assert Byte0(b0 / 4, v1) == b[0];
    assert b == [b[0]];
  }

  lemma EncodeTwo(b: seq<byte>)
    requires |b| == 2
    ensures Base64Decode(Base64Encode(b)) == b
  {
    var b0, b1 := b[0] as nat, b[1] as nat;
    GroupArithmetic(b0, b1, 0);
    var v1, v2 := b0 % 4 * 16 + b1 / 16, b1 % 16 * 4;
    var q := [Base64Char(b0 / 4), Base64Char(v1), Base64Char(v2), '='];
    assert Base64Encode(b) == q;
    DecodeQuartet(b0 / 4, v1, v2, 0, 2, "");
    assert q + "" == q;
    assert Byte0(b0 / 4, v1) == b[0] && Byte1(v1, v2) == b[1];
    assert b == [b[0], b[1]];
  }

  lemma EncodeGroupShape(b: seq<byte>)
    requires |b| > 2
    ensures var b0, b1, b2 := b[0] as nat, b[1] as nat, b[2] as nat;
      Base64Encode(b) ==
        [Base64Char(b0 / 4), Base64Char(b0 % 4 * 16 + b1 / 16), Base64Char(b1 % 16 * 4 + b2 / 64), Base64Char(b2 % 64)]
        + Base64Encode(b[3..])
  {
  }

  /** The four six-bit values of a full group, with what the decoder makes of them. */
  lemma GroupSextets(b: seq<byte>) returns (v0: nat, v1: nat, v2: nat, v3: nat)
    requires |b| > 2
    ensures v0 < 64 && v1 < 64 && v2 < 64 && v3 < 64
    ensures Base64Encode(b) == [Base64Char(v0), Base64Char(v1), Base64Char(v2), Base64Char(v3)] + Base64Encode(b[3..])
    ensures Byte0(v0, v1) == b[0] && Byte1(v1, v2) == b[1] && Byte2(v2, v3) == b[2]
  {
    var b0, b1, b2 := b[0] as nat, b[1] as nat, b[2] as nat;
    EncodeGroupShape(b);
    GroupArithmetic(b0, b1, b2);
    v0, v1, v2, v3 := b0 / 4, b0 % 4 * 16 + b1 / 16, b1 % 16 * 4 + b2 / 64, b2 % 64;
  }

  lemma DecodeFullQuartet(v0: nat, v1: nat, v2: nat, v3: nat, rest: string)
    requires v0 < 64 && v1 < 64 && v2 < 64 && v3 < 64
    ensures Base64Decode([Base64Char(v0), Base64Char(v1), Base64Char(v2), Base64Char(v3)] + rest)
         == [Byte0(v0, v1), Byte1(v1, v2), Byte2(v2, v3)] + Base64Decode(rest)
  {
    DecodeQuartet(v0, v1, v2, v3, 3, rest);
  }

  lemma EncodeGroup(b: seq<byte>)
    requires |b| > 2
    ensures Base64Decode(Base64Encode(b)) == [b[0], b[1], b[2]] + Base64Decode(Base64Encode(b[3..]))
  {
    var v0, v1, v2, v3 := GroupSextets(b);
    DecodeFullQuartet(v0, v1, v2, v3, Base64Encode(b[3..]));
  }

  lemma {:induction false} Base64RoundTrip(b: seq<byte>)
    ensures Base64Decode(Base64Encode(b)) == b
    decreases |b|
  {
    if |b| == 1 {
      EncodeOne(b);
    } else if |b| == 2 {
      EncodeTwo(b);
    } else if |b| > 2 {
      EncodeGroup(b);
      Base64RoundTrip(b[3..]);
      assert b == [b[0], b[1], b[2]] + b[3..];
    }
  }
}
