/**
 * The two byte-to-text codecs of Node's `Buffer` that the core uses:
 * `toString('base64')` / `Buffer.from(s, 'base64')` (standard alphabet of
 * section 4 of RFC 4648) and `toString('hex')` / `Buffer.from(s, 'hex')`.
 */
module Codecs {
  import opened Wrappers
  import Text

  type Byte = b: int | 0 <= b < 256

  /** The value of a character in the standard base64 alphabet, if it is one. */
  function Base64Value(c: char): (v: Option<int>)
    ensures v.Some? ==> 0 <= v.value < 64
  {
    if 'A' <= c <= 'Z' then Some(c as int - 'A' as int)
    else if 'a' <= c <= 'z' then Some(c as int - 'a' as int + 26)
    else if '0' <= c <= '9' then Some(c as int - '0' as int + 52)
    else if c == '+' then Some(62)
    else if c == '/' then Some(63)
    else None
  }

  /** The character of the standard base64 alphabet for a 6-bit value. */
  function Base64Digit(v: int): (c: char)
    requires 0 <= v < 64
    ensures Base64Value(c) == Some(v)
  {
    if v < 26 then ('A' as int + v) as char
    else if v < 52 then ('a' as int + (v - 26)) as char
    else if v < 62 then ('0' as int + (v - 52)) as char
    else if v == 62 then '+'
    else '/'
  }

  /** Four digits for three bytes: 6 bits each, most significant first. */
  function EncodeGroup(x: Byte, y: Byte, z: Byte): (g: string)
    ensures |g| == 4 && '=' !in g
  {
    [Base64Digit(x / 4), Base64Digit(x % 4 * 16 + y / 16), Base64Digit(y % 16 * 4 + z / 64), Base64Digit(z % 64)]
  }

  /** Standard base64 with '=' padding, three bytes to four characters. */
  function Base64Encode(b: seq<Byte>): (s: string)
    decreases |b|
  {
    if |b| == 0 then []
    else if |b| == 1 then
      [Base64Digit(b[0] / 4), Base64Digit(b[0] % 4 * 16), '=', '=']
    else if |b| == 2 then
      [Base64Digit(b[0] / 4), Base64Digit(b[0] % 4 * 16 + b[1] / 16), Base64Digit(b[1] % 16 * 4), '=']
    else
      EncodeGroup(b[0], b[1], b[2]) + Base64Encode(b[3..])
  }

  /**
   * Base64 decoding of unpadded text over the standard alphabet; as in Node,
   * the bits left over after the last whole byte are ignored. Text that is
   * not of that form has no decoding here.
   */
  function Base64Decode(s: string): (r: Option<seq<Byte>>)
    ensures r.Some? ==> |r.value| == |s| * 3 / 4
    decreases |s|
  {
    if |s| < 2 then (if |s| == 0 then Some([]) else None)
    else
      var c0, c1 := Base64Value(s[0]), Base64Value(s[1]);
      if c0.None? || c1.None? then None
      else if |s| == 2 then Some([c0.value * 4 + c1.value / 16])
      else
        var c2 := Base64Value(s[2]);
        if c2.None? then None
        else if |s| == 3 then Some([c0.value * 4 + c1.value / 16, c1.value % 16 * 16 + c2.value / 4])
        else
          var c3 := Base64Value(s[3]);
          if c3.None? then None
          else match Base64Decode(s[4..])
            case None => None
            case Some(rest) =>
              Some([c0.value * 4 + c1.value / 16, c1.value % 16 * 16 + c2.value / 4, c2.value % 4 * 64 + c3.value] + rest)
  }

  /** The bit arithmetic of one group: the three bytes come back out of the four digits. */
  lemma GroupArithmetic(b0: Byte, b1: Byte, b2: Byte)
    ensures (b0 / 4) * 4 + (b0 % 4 * 16 + b1 / 16) / 16 == b0
    ensures (b0 % 4 * 16 + b1 / 16) % 16 * 16 + (b1 % 16 * 4 + b2 / 64) / 4 == b1
    ensures (b1 % 16 * 4 + b2 / 64) % 4 * 64 + b2 % 64 == b2
  {
  }

  /** Decoding a group of four digits in front of decodable text gives its three bytes back. */
  lemma DecodeGroup(x: Byte, y: Byte, z: Byte, rest: string, tail: seq<Byte>)
    requires Base64Decode(rest) == Some(tail)
    ensures Base64Decode(EncodeGroup(x, y, z) + rest) == Some([x, y, z] + tail)
  {
    var s := EncodeGroup(x, y, z) + rest;
    assert s[4..] == rest;
    GroupArithmetic(x, y, z);
  }

  /** The padding of the last group is what the '=' removal takes away. */
  lemma UnpaddedTail(head: string, pad: string)
    requires '=' !in head
    requires pad == "=" || pad == "=="
    ensures Text.RemoveAll(head + pad, '=') == head
  {
    Text.RemoveAllAppend(head, pad, '=');
    Text.RemoveAllAbsent(head, '=');
    assert Text.RemoveAll("=", '=') == Text.RemoveAll("", '=') == [];
    assert "=="[1..] == "=";
    assert head + [] == head;
  }

  /** Decoding a last group of two digits. */
  lemma DecodePair(v0: int, v1: int)
    requires 0 <= v0 < 64 && 0 <= v1 < 64
    ensures Base64Decode([Base64Digit(v0), Base64Digit(v1)]) == Some([v0 * 4 + v1 / 16])
  {
    var s := [Base64Digit(v0), Base64Digit(v1)];
    assert Base64Value(s[0]) == Some(v0);
    assert Base64Value(s[1]) == Some(v1);
  }

  /** Decoding a last group of three digits. */
  lemma DecodeTriple(v0: int, v1: int, v2: int)
    requires 0 <= v0 < 64 && 0 <= v1 < 64 && 0 <= v2 < 64
    ensures Base64Decode([Base64Digit(v0), Base64Digit(v1), Base64Digit(v2)])
         == Some([v0 * 4 + v1 / 16, v1 % 16 * 16 + v2 / 4])
  {
    var s := [Base64Digit(v0), Base64Digit(v1), Base64Digit(v2)];
    assert Base64Value(s[0]) == Some(v0);
    assert Base64Value(s[1]) == Some(v1);
    assert Base64Value(s[2]) == Some(v2);
  }

  /** The last group when one byte is left: two digits and two '='. */
  lemma RoundTripOne(b: seq<Byte>)
    requires |b| == 1
    ensures Base64Decode(Text.RemoveAll(Base64Encode(b), '=')) == Some(b)
  {
    var x := b[0];
    EncodeOne(b);
    assert (x / 4) * 4 + (x % 4 * 16) / 16 == x;
    UnpadPair(Base64Encode(b), b, x / 4, x % 4 * 16);
  }

  /** The encoding of one byte: two digits and two '='. */
  lemma EncodeOne(b: seq<Byte>)
    requires |b| == 1
    ensures Base64Encode(b) == [Base64Digit(b[0] / 4), Base64Digit(b[0] % 4 * 16)] + "=="
  {
  }

  /** Two digits and two '=' whose digit values carry the byte decode to that byte. */
  lemma UnpadPair(e: string, b: seq<Byte>, v0: int, v1: int)
    requires 0 <= v0 < 64 && 0 <= v1 < 64
    requires e == [Base64Digit(v0), Base64Digit(v1)] + "=="
    requires |b| == 1 && b[0] == v0 * 4 + v1 / 16
    ensures Base64Decode(Text.RemoveAll(e, '=')) == Some(b)
  {
    var head := [Base64Digit(v0), Base64Digit(v1)];
    UnpaddedTail(head, "==");
    DecodePair(v0, v1);
    assert [v0 * 4 + v1 / 16] == b;
  }

  /** The last group when two bytes are left: three digits and one '='. */
  lemma RoundTripTwo(b: seq<Byte>)
    requires |b| == 2
    ensures Base64Decode(Text.RemoveAll(Base64Encode(b), '=')) == Some(b)
  {
    var x, y := b[0], b[1];
    EncodeTwo(b);
    PairArithmetic(x, y);
    UnpadTriple(Base64Encode(b), b, x / 4, x % 4 * 16 + y / 16, y % 16 * 4);
  }

  /** The bit arithmetic of a last group of two bytes. */
  lemma PairArithmetic(x: Byte, y: Byte)
    ensures (x / 4) * 4 + (x % 4 * 16 + y / 16) / 16 == x
    ensures (x % 4 * 16 + y / 16) % 16 * 16 + (y % 16 * 4) / 4 == y
  {
    GroupArithmetic(x, y, 0);
  }

  /** The encoding of two bytes: three digits and one '='. */
  lemma EncodeTwo(b: seq<Byte>)
    requires |b| == 2
    ensures Base64Encode(b)
         == [Base64Digit(b[0] / 4), Base64Digit(b[0] % 4 * 16 + b[1] / 16), Base64Digit(b[1] % 16 * 4)] + "="
  {
  }

  /** Three digits and one '=' whose digit values carry the two bytes decode to those bytes. */
  lemma UnpadTriple(e: string, b: seq<Byte>, v0: int, v1: int, v2: int)
    requires 0 <= v0 < 64 && 0 <= v1 < 64 && 0 <= v2 < 64
    requires e == [Base64Digit(v0), Base64Digit(v1), Base64Digit(v2)] + "="
    requires |b| == 2 && b[0] == v0 * 4 + v1 / 16 && b[1] == v1 % 16 * 16 + v2 / 4
    ensures Base64Decode(Text.RemoveAll(e, '=')) == Some(b)
  {
    var head := [Base64Digit(v0), Base64Digit(v1), Base64Digit(v2)];
    UnpaddedTail(head, "=");
    DecodeTriple(v0, v1, v2);
    assert [v0 * 4 + v1 / 16, v1 % 16 * 16 + v2 / 4] == b;
  }

  /** One full group in front: if the rest round-trips, so does the whole. */
  lemma RoundTripGroup(b: seq<Byte>)
    requires |b| >= 3
    requires Base64Decode(Text.RemoveAll(Base64Encode(b[3..]), '=')) == Some(b[3..])
    ensures Base64Decode(Text.RemoveAll(Base64Encode(b), '=')) == Some(b)
  {
    var head := EncodeGroup(b[0], b[1], b[2]);
    var rest := Base64Encode(b[3..]);
    Text.RemoveAllAppend(head, rest, '=');
    Text.RemoveAllAbsent(head, '=');
    DecodeGroup(b[0], b[1], b[2], Text.RemoveAll(rest, '='), b[3..]);
    SplitFirstThree(b);
  }

  lemma SplitFirstThree(b: seq<Byte>)
    requires |b| >= 3
    ensures [b[0], b[1], b[2]] + b[3..] == b
  {
  }

  /** Decoding the encoding, with its padding removed, gives back the bytes. */
  lemma {:induction false} Base64RoundTrip(b: seq<Byte>)
    ensures Base64Decode(Text.RemoveAll(Base64Encode(b), '=')) == Some(b)
    decreases |b|
  {
    if |b| == 1 {
      RoundTripOne(b);
    } else if |b| == 2 {
      RoundTripTwo(b);
    } else if |b| >= 3 {
      Base64RoundTrip(b[3..]);
      RoundTripGroup(b);
    }
  }

  /** Every character of the encoding is a base64 digit or the padding '='. */
  lemma {:induction false} Base64EncodeAlphabet(b: seq<Byte>)
    ensures forall c :: c in Base64Encode(b) ==> c == '=' || Base64Value(c).Some?
    decreases |b|
  {
    if |b| >= 3 {
      Base64EncodeAlphabet(b[3..]);
    }
  }

  /** Lower-case hexadecimal digit of a 4-bit value. */
  function HexDigit(v: int): (c: char)
    requires 0 <= v < 16
    ensures HexValue(c) == Some(v)
    ensures '0' <= c <= '9' || 'a' <= c <= 'f'
  {
    if v < 10 then ('0' as int + v) as char else ('a' as int + (v - 10)) as char
  }

  /** The value of a hexadecimal digit of either case, if it is one. */
  function HexValue(c: char): (v: Option<int>)
    ensures v.Some? ==> 0 <= v.value < 16
  {
    if '0' <= c <= '9' then Some(c as int - '0' as int)
    else if 'a' <= c <= 'f' then Some(c as int - 'a' as int + 10)
    else if 'A' <= c <= 'F' then Some(c as int - 'A' as int + 10)
    else None
  }

  predicate IsLowerHex(s: string)
  {
    forall c :: c in s ==> '0' <= c <= '9' || 'a' <= c <= 'f'
  }

  /** `toString('hex')`: two lower-case digits per byte, high nibble first. */
  function HexEncode(b: seq<Byte>): (s: string)
    ensures |s| == 2 * |b|
    ensures IsLowerHex(s)
    decreases |b|
  {
    if |b| == 0 then [] else [HexDigit(b[0] / 16), HexDigit(b[0] % 16)] + HexEncode(b[1..])
  }

  /**
   * `Buffer.from(s, 'hex')`: bytes from successive digit pairs, stopping at
   * the first pair that is not two hexadecimal digits and dropping an odd
   * last digit.
   */
  function HexDecode(s: string): (b: seq<Byte>)
    ensures |b| <= |s| / 2
    decreases |s|
  {
    if |s| < 2 then []
    else match (HexValue(s[0]), HexValue(s[1]))
      case (Some(hi), Some(lo)) => [hi * 16 + lo] + HexDecode(s[2..])
      case _ => []
  }

  /** Decoding the hexadecimal encoding gives back the bytes. */
  lemma {:induction false} HexRoundTrip(b: seq<Byte>)
    ensures HexDecode(HexEncode(b)) == b
    decreases |b|
  {
    if |b| > 0 {
      var s := HexEncode(b);
      assert s[2..] == HexEncode(b[1..]);
      HexRoundTrip(b[1..]);
      assert [b[0]] + b[1..] == b;
    }
  }
}
