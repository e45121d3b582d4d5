/**
 * The byte encodings behind the Instapaper `Authorization` header:
 * `str.encode()` (UTF-8) and `base64.b64encode` (standard alphabet, `=` padding),
 * each with its inverse so that the header can be shown to carry exactly
 * the credentials it was built from.
 */
module Encoding {
  import opened Wrappers

  type Byte = b: int | 0 <= b < 256

  // ---------------------------------------------------------------- UTF-8

  /** The UTF-8 bytes of one Unicode scalar value. */
  function EncodeScalar(c: char): (r: seq<Byte>)
    ensures 1 <= |r| <= 4
    ensures c as int < 0x80 <==> |r| == 1
    ensures |r| == 1 ==> r[0] == c as int
  {
    var n := c as int;
    if n < 0x80 then [n]
    else if n < 0x800 then [0xC0 + n / 64, 0x80 + n % 64]
    else if n < 0x1_0000 then [0xE0 + n / 4096, 0x80 + (n / 64) % 64, 0x80 + n % 64]
    else [0xF0 + n / 262144, 0x80 + (n / 4096) % 64, 0x80 + (n / 64) % 64, 0x80 + n % 64]
  }

  /** `s.encode()`: the concatenated UTF-8 bytes of the characters of `s`. */
  function Utf8Encode(s: string): (r: seq<Byte>)
    ensures |s| <= |r| <= 4 * |s|
    ensures (forall i :: 0 <= i < |s| ==> s[i] as int < 0x80) ==> |r| == |s|
  {
    if s == [] then [] else EncodeScalar(s[0]) + Utf8Encode(s[1..])
  }

  /** Number of bytes a UTF-8 sequence starting with lead byte `b` occupies. */
  function SequenceLength(b: Byte): nat {
    if b < 0x80 then 1 else if b < 0xE0 then 2 else if b < 0xF0 then 3 else 4
  }

  /** Decodes the scalar value at the front of a well-formed UTF-8 byte sequence. */
  function DecodeScalar(b: seq<Byte>): Option<char>
    requires 0 < |b| && |b| == SequenceLength(b[0])
  {
    var n: int :=
      if |b| == 1 then b[0] as int
      else if |b| == 2 then (b[0] as int - 0xC0) * 64 + (b[1] as int - 0x80)
      else if |b| == 3 then (b[0] as int - 0xE0) * 4096 + (b[1] as int - 0x80) * 64 + (b[2] as int - 0x80)
      else (b[0] as int - 0xF0) * 262144 + (b[1] as int - 0x80) * 4096 + (b[2] as int - 0x80) * 64 + (b[3] as int - 0x80);
    if 0 <= n < 0xD800 || 0xE000 <= n < 0x11_0000 then Some(n as char) else None
  }

  /** Decodes a whole UTF-8 byte sequence, or `None` if it is cut short or malformed. */
  function Utf8Decode(b: seq<Byte>): Option<string>
    decreases |b|
  {
    if b == [] then Some([])
    else
      var k := SequenceLength(b[0]);
      if |b| < k then None
      else match DecodeScalar(b[..k])
        case None => None
        case Some(c) =>
          match Utf8Decode(b[k..])
          case None => None
          case Some(rest) => Some([c] + rest)
  }

  lemma DivModSplit(n: int, d: int)
    requires 0 <= n && 0 < d
    ensures n == (n / d) * d + n % d
    ensures 0 <= n % d < d
  {
  }

  lemma {:induction false} ScalarRoundTrip(c: char)
    ensures |EncodeScalar(c)| == SequenceLength(EncodeScalar(c)[0])
    ensures DecodeScalar(EncodeScalar(c)) == Some(c)
  {
    var n := c as int;
    var r := EncodeScalar(c);
    if n < 0x80 {
    } else if n < 0x800 {
      DivModSplit(n, 64);
      assert r[0] - 0xC0 == n / 64;
    } else if n < 0x1_0000 {
      var q := n / 64;
      DivModSplit(n, 64);
      DivModSplit(q, 64);
      assert q / 64 == n / 4096;
      assert n == (q / 64) * 4096 + (q % 64) * 64 + n % 64;
    } else {
      var q := n / 64;
      var q2 := q / 64;
      DivModSplit(n, 64);
      DivModSplit(q, 64);
      DivModSplit(q2, 64);
      assert q2 == n / 4096;
      assert q2 / 64 == n / 262144;
      assert n == (q2 / 64) * 262144 + (q2 % 64) * 4096 + (q % 64) * 64 + n % 64;
    }
  }

  /** Decoding the UTF-8 encoding of a string gives the string back. */
  lemma {:induction false} Utf8RoundTrip(s: string)
    ensures Utf8Decode(Utf8Encode(s)) == Some(s)
  {
    if s != [] {
      var head := EncodeScalar(s[0]);
      var b := Utf8Encode(s);
      ScalarRoundTrip(s[0]);
      assert b == head + Utf8Encode(s[1..]);
      assert b[0] == head[0];
      assert b[..|head|] == head;
      assert b[|head|..] == Utf8Encode(s[1..]);
      Utf8RoundTrip(s[1..]);
      assert [s[0]] + s[1..] == s;
    }
  }

  // --------------------------------------------------------------- base64

  /** The base64 digit for a 6-bit value: `A`-`Z`, `a`-`z`, `0`-`9`, `+`, `/`. */
  function Digit(v: int): (c: char)
    requires 0 <= v < 64
    ensures c != '='
  {
    if v < 26 then ('A' as int + v) as char
    else if v < 52 then ('a' as int + v - 26) as char
    else if v < 62 then ('0' as int + v - 52) as char
    else if v == 62 then '+'
    else '/'
  }

  /** The 6-bit value of a base64 digit, or `None` for any other character. */
  function DigitValue(c: char): (r: Option<int>)
    ensures r.Some? ==> 0 <= r.value < 64 && Digit(r.value) == c
  {
    if 'A' <= c <= 'Z' then Some(c as int - 'A' as int)
    else if 'a' <= c <= 'z' then Some(c as int - 'a' as int + 26)
    else if '0' <= c <= '9' then Some(c as int - '0' as int + 52)
    else if c == '+' then Some(62)
    else if c == '/' then Some(63)
    else None
  }

  lemma DigitValueOfDigit(v: int)
    requires 0 <= v < 64
    ensures DigitValue(Digit(v)) == Some(v)
  {
  }

  /** The four characters for one group of three bytes. */
  function EncodeGroup(b0: Byte, b1: Byte, b2: Byte): string {
    [Digit(b0 / 4), Digit((b0 % 4) * 16 + b1 / 16), Digit((b1 % 16) * 4 + b2 / 64), Digit(b2 % 64)]
  }

  /** `base64.b64encode(b).decode()`: groups of three bytes become four digits; a final group of one or two bytes is padded with `=`. */
  function Base64Encode(b: seq<Byte>): (r: string)
    ensures |r| == 4 * ((|b| + 2) / 3)
  {
    if |b| == 0 then []
    else if |b| == 1 then EncodeGroup(b[0], 0, 0)[..2] + "=="
    else if |b| == 2 then EncodeGroup(b[0], b[1], 0)[..3] + "="
    else EncodeGroup(b[0], b[1], b[2]) + Base64Encode(b[3..])
  }

  /** Every character of an encoding is a base64 digit or the padding `=`, so the text is plain ASCII. */
  lemma {:induction false} Base64Alphabet(b: seq<Byte>)
    ensures forall i :: 0 <= i < |Base64Encode(b)| ==>
      Base64Encode(b)[i] == '=' || DigitValue(Base64Encode(b)[i]).Some?
  {
    var r := Base64Encode(b);
    if |b| >= 3 {
      Base64Alphabet(b[3..]);
      var g := EncodeGroup(b[0], b[1], b[2]);
      assert r == g + Base64Encode(b[3..]);
      forall i | 0 <= i < 4 ensures DigitValue(g[i]).Some? {
        GroupDigits(b[0], b[1], b[2]);
      }
    } else if |b| > 0 {
      var g := EncodeGroup(b[0], if |b| == 2 then b[1] else 0, 0);
      GroupDigits(b[0], if |b| == 2 then b[1] else 0, 0);
    }
  }

  lemma GroupDigits(b0: Byte, b1: Byte, b2: Byte)
    ensures forall i :: 0 <= i < 4 ==> DigitValue(EncodeGroup(b0, b1, b2)[i]).Some?
  {
    DigitValueOfDigit(b0 / 4);
    DigitValueOfDigit((b0 % 4) * 16 + b1 / 16);
    DigitValueOfDigit((b1 % 16) * 4 + b2 / 64);
    DigitValueOfDigit(b2 % 64);
  }

  /** The bytes of one group of four digits, of which the last `pad` are `=`. */
  function DecodeGroup(s: string, pad: nat): Option<seq<Byte>>
    requires |s| == 4 && pad <= 2
  {
    var v0 := DigitValue(s[0]);
    var v1 := DigitValue(s[1]);
    var v2 := if pad == 2 then Some(0) else DigitValue(s[2]);
    var v3 := if pad >= 1 then Some(0) else DigitValue(s[3]);
    if v0.None? || v1.None? || v2.None? || v3.None? then None
    else
      var c0, c1, c2, c3 := v0.value, v1.value, v2.value, v3.value;
      var bytes := [c0 * 4 + c1 / 16, (c1 % 16) * 16 + c2 / 4, (c2 % 4) * 64 + c3];
      Some(bytes[..3 - pad])
  }

  /** Inverse of `Base64Encode`: `None` unless the input is whole groups of four with padding only at the end. */
  function Base64Decode(s: string): Option<seq<Byte>>
    decreases |s|
  {
    if |s| == 0 then Some([])
    else if |s| < 4 then None
    else if |s| == 4 then
      if s[2] == '=' && s[3] == '=' then DecodeGroup(s, 2)
      else if s[3] == '=' then DecodeGroup(s, 1)
      else DecodeGroup(s, 0)
    else match DecodeGroup(s[..4], 0)
      case None => None
      case Some(head) =>
        match Base64Decode(s[4..])
        case None => None
        case Some(rest) => Some(head + rest)
  }

  lemma FullGroupRoundTrip(b0: Byte, b1: Byte, b2: Byte)
    ensures DecodeGroup(EncodeGroup(b0, b1, b2), 0) == Some([b0, b1, b2])
  {
    GroupBits(b0, b1, b2);
    var full := EncodeGroup(b0, b1, b2);
    assert full[0] == Digit(b0 / 4) && full[1] == Digit((b0 % 4) * 16 + b1 / 16);
    assert full[2] == Digit((b1 % 16) * 4 + b2 / 64) && full[3] == Digit(b2 % 64);
    assert [b0, b1, b2][..3] == [b0, b1, b2];
  }

  lemma TwoByteGroupRoundTrip(b0: Byte, b1: Byte)
    ensures DecodeGroup(EncodeGroup(b0, b1, 0)[..3] + "=", 1) == Some([b0, b1])
  {
    GroupBits(b0, b1, 0);
    var two := EncodeGroup(b0, b1, 0)[..3] + "=";
    assert two[..3] == EncodeGroup(b0, b1, 0)[..3];
    assert [b0, b1, 0][..2] == [b0, b1];
  }

  lemma OneByteGroupRoundTrip(b0: Byte)
    ensures DecodeGroup(EncodeGroup(b0, 0, 0)[..2] + "==", 2) == Some([b0])
  {
    GroupBits(b0, 0, 0);
    var one := EncodeGroup(b0, 0, 0)[..2] + "==";
    assert one[..2] == EncodeGroup(b0, 0, 0)[..2];
    assert [b0, 0, 0][..1] == [b0];
  }

  /** The four 6-bit digits of a group recombine into its three bytes. */
  lemma GroupBits(b0: Byte, b1: Byte, b2: Byte)
    ensures var c0, c1, c2, c3 := b0 / 4, (b0 % 4) * 16 + b1 / 16, (b1 % 16) * 4 + b2 / 64, b2 % 64;
      && DigitValue(Digit(c0)) == Some(c0) && DigitValue(Digit(c1)) == Some(c1)
      && DigitValue(Digit(c2)) == Some(c2) && DigitValue(Digit(c3)) == Some(c3)
      && c0 * 4 + c1 / 16 == b0
      && (c1 % 16) * 16 + c2 / 4 == b1
      && (c2 % 4) * 64 + c3 == b2
  {
    var c0, c1, c2, c3 := b0 / 4, (b0 % 4) * 16 + b1 / 16, (b1 % 16) * 4 + b2 / 64, b2 % 64;
    DigitValueOfDigit(c0);
    DigitValueOfDigit(c1);
    DigitValueOfDigit(c2);
    DigitValueOfDigit(c3);
    assert c1 / 16 == b0 % 4;
    assert c1 % 16 == b1 / 16;
    assert c2 / 4 == b1 % 16;
    assert c2 % 4 == b2 / 64;
  }

  lemma OneByteRoundTrip(b0: Byte)
    ensures Base64Decode(Base64Encode([b0])) == Some([b0])
  {
    var r := Base64Encode([b0]);
    assert r == EncodeGroup(b0, 0, 0)[..2] + "==";
    OneByteGroupRoundTrip(b0);
  }

  lemma TwoBytesRoundTrip(b0: Byte, b1: Byte)
    ensures Base64Decode(Base64Encode([b0, b1])) == Some([b0, b1])
  {
    var r := Base64Encode([b0, b1]);
    assert r == EncodeGroup(b0, b1, 0)[..3] + "=";
    assert r[2] != '=';
    TwoByteGroupRoundTrip(b0, b1);
  }

  lemma ThreeBytesRoundTrip(b0: Byte, b1: Byte, b2: Byte)
    ensures Base64Decode(Base64Encode([b0, b1, b2])) == Some([b0, b1, b2])
  {
    var r := Base64Encode([b0, b1, b2]);
    assert [b0, b1, b2][3..] == [];
    assert r == EncodeGroup(b0, b1, b2);
    assert r[3] != '=';
    assert r[2] != '=';
    FullGroupRoundTrip(b0, b1, b2);
  }

  /** Decoding a non-final group followed by more groups. */
  lemma DecodeGroupThenRest(head: string, rest: string, h: seq<Byte>, t: seq<Byte>)
    requires |head| == 4 && |rest| > 0
    requires DecodeGroup(head, 0) == Some(h) && Base64Decode(rest) == Some(t)
    ensures Base64Decode(head + rest) == Some(h + t)
  {
    var s := head + rest;
    assert s[..4] == head && s[4..] == rest;
  }

  /** The encoding of a final group of one to three bytes decodes back to it. */
  lemma FinalGroupRoundTrip(b: seq<Byte>)
    requires 1 <= |b| <= 3
    ensures Base64Decode(Base64Encode(b)) == Some(b)
  {
    if |b| == 1 {
      OneByteRoundTrip(b[0]);
      assert b == [b[0]];
    } else if |b| == 2 {
      TwoBytesRoundTrip(b[0], b[1]);
      assert b == [b[0], b[1]];
    } else {
      ThreeBytesRoundTrip(b[0], b[1], b[2]);
      assert b == [b[0], b[1], b[2]];
    }
  }

  /** A full leading group in front of a round-tripping remainder round-trips. */
  lemma LeadingGroupRoundTrip(b: seq<Byte>)
    requires |b| > 3
    requires Base64Decode(Base64Encode(b[3..])) == Some(b[3..])
    ensures Base64Decode(Base64Encode(b)) == Some(b)
  {
    var head, rest := EncodeGroup(b[0], b[1], b[2]), Base64Encode(b[3..]);
    FullGroupRoundTrip(b[0], b[1], b[2]);
    LeadingGroup(b);
    DecodeGroupThenRest(head, rest, [b[0], b[1], b[2]], b[3..]);
    SplitAfterThree(b);
  }

  lemma SplitAfterThree(b: seq<Byte>)
    requires |b| >= 3
    ensures [b[0], b[1], b[2]] + b[3..] == b
  {
    assert b[..3] == [b[0], b[1], b[2]];
    assert b[..3] + b[3..] == b;
  }

  lemma LeadingGroup(b: seq<Byte>)
    requires |b| > 3
    ensures Base64Encode(b) == EncodeGroup(b[0], b[1], b[2]) + Base64Encode(b[3..])
  {
  }

  /** Decoding the base64 encoding of a byte string gives the byte string back. */
  lemma {:induction false} Base64RoundTrip(b: seq<Byte>)
    ensures Base64Decode(Base64Encode(b)) == Some(b)
    decreases |b|
  {
    if 1 <= |b| <= 3 {
      FinalGroupRoundTrip(b);
    } else if |b| > 3 {
      Base64RoundTrip(b[3..]);
      LeadingGroupRoundTrip(b);
    }
  }
}
