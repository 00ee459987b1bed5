/**
 * The "base64" encoding of section 4 of RFC 4648: standard alphabet,
 * padded with '=', no line breaks. Push encodes the narrowed frame buffer
 * with it. The decoder is the encoder's partner: the round-trip lemma
 * `DecodeEncode` states that no information is lost.
 */
module Base64 {
  import Arith

  /** An 8-bit octet, the unit of the encoded byte string. */
  type byte = b: int | 0 <= b < 256

  /** A 6-bit group, the value one output character stands for. */
  type sextet = s: int | 0 <= s < 64

  datatype Option<T> = None | Some(value: T)

  /** The padding character of section 3.2 of RFC 4648. */
  const Pad: char := '='

  /** Table 1 of RFC 4648: A-Z, a-z, 0-9, '+', '/'. */
  function CharOf(s: sextet): (ch: char)
    ensures ch != Pad
  {
    if s < 26 then (65 + s) as char
    else if s < 52 then (97 + s - 26) as char
    else if s < 62 then (48 + s - 52) as char
    else if s == 62 then '+'
    else '/'
  }

  /** The inverse of Table 1; `None` for a character outside the alphabet. */
  function SextetOf(ch: char): (r: Option<sextet>)
    ensures r.Some? ==> CharOf(r.value) == ch
    ensures ch == Pad ==> r.None?
  {
    if 'A' <= ch <= 'Z' then Some(ch as int - 65)
    else if 'a' <= ch <= 'z' then Some(ch as int - 97 + 26)
    else if '0' <= ch <= '9' then Some(ch as int - 48 + 52)
    else if ch == '+' then Some(62)
    else if ch == '/' then Some(63)
    else None
  }

  lemma SextetOfCharOf(s: sextet)
    ensures SextetOf(CharOf(s)) == Some(s)
  {
  }

  /** True of the characters an encoding may contain. */
  predicate IsAlphabetOrPad(ch: char) {
    SextetOf(ch).Some? || ch == Pad
  }

  // The 24-bit group of section 4: octets b0 b1 b2 split into sextets
  // s0 s1 s2 s3, most significant bits first, and the inverse split.

  function Sextet0(b0: byte): sextet { b0 / 4 }
  function Sextet1(b0: byte, b1: byte): sextet { (b0 % 4) * 16 + b1 / 16 }
  function Sextet2(b1: byte, b2: byte): sextet { (b1 % 16) * 4 + b2 / 64 }
  function Sextet3(b2: byte): sextet { b2 % 64 }

  function Octet0(s0: sextet, s1: sextet): byte { s0 * 4 + s1 / 16 }
  function Octet1(s1: sextet, s2: sextet): byte { (s1 % 16) * 16 + s2 / 4 }
  function Octet2(s2: sextet, s3: sextet): byte { (s2 % 4) * 64 + s3 }

  lemma Octet0Split(b0: byte, b1: byte)
    ensures Octet0(Sextet0(b0), Sextet1(b0, b1)) == b0
  {
    Arith.DivModUnique(Sextet1(b0, b1), 16, b0 % 4, b1 / 16);
  }

  lemma Octet1Split(b0: byte, b1: byte, b2: byte)
    ensures Octet1(Sextet1(b0, b1), Sextet2(b1, b2)) == b1
  {
    Arith.DivModUnique(Sextet1(b0, b1), 16, b0 % 4, b1 / 16);
    Arith.DivModUnique(Sextet2(b1, b2), 4, b1 % 16, b2 / 64);
  }

  lemma Octet2Split(b1: byte, b2: byte)
    ensures Octet2(Sextet2(b1, b2), Sextet3(b2)) == b2
  {
    Arith.DivModUnique(Sextet2(b1, b2), 4, b1 % 16, b2 / 64);
  }

  /** Three octets become four characters. */
  function EncodeGroup(b0: byte, b1: byte, b2: byte): string {
    [CharOf(Sextet0(b0)), CharOf(Sextet1(b0, b1)), CharOf(Sextet2(b1, b2)), CharOf(Sextet3(b2))]
  }

  /** A final group of two octets: three characters and one '='. */
  function EncodeTail2(b0: byte, b1: byte): string {
    [CharOf(Sextet0(b0)), CharOf(Sextet1(b0, b1)), CharOf(Sextet2(b1, 0)), Pad]
  }

  /** A final group of one octet: two characters and "==". */
  function EncodeTail1(b0: byte): string {
    [CharOf(Sextet0(b0)), CharOf(Sextet1(b0, 0)), Pad, Pad]
  }

  /**
   * Standard padded base64 of `bytes`: each group of 3 octets becomes 4
   * characters, and a final group of 1 or 2 octets is padded to 4.
   */
  function Encode(bytes: seq<byte>): (s: string)
    decreases |bytes|
  {
    if |bytes| >= 3 then EncodeGroup(bytes[0], bytes[1], bytes[2]) + Encode(bytes[3..])
    else if |bytes| == 2 then EncodeTail2(bytes[0], bytes[1])
    else if |bytes| == 1 then EncodeTail1(bytes[0])
    else []
  }

  /** The length law: 4 characters per started group of 3 octets. */
  lemma {:induction false} EncodeLength(bytes: seq<byte>)
    ensures |Encode(bytes)| == 4 * ((|bytes| + 2) / 3)
    decreases |bytes|
  {
    if |bytes| >= 3 {
      EncodeLength(bytes[3..]);
      assert (|bytes| + 2) / 3 == (|bytes[3..]| + 2) / 3 + 1;
    }
  }

  /**
   * One four-character group back to its octets: three for a full group,
   * two for "xxx=", one for "xx==", `None` for anything else.
   */
  function DecodeGroup(c0: char, c1: char, c2: char, c3: char): (r: Option<seq<byte>>)
    ensures r.Some? ==> 1 <= |r.value| <= 3
    ensures r.Some? && |r.value| < 3 ==> c3 == Pad
  {
    var s0, s1, s2, s3 := SextetOf(c0), SextetOf(c1), SextetOf(c2), SextetOf(c3);
    if s0.None? || s1.None? then None
    else if c2 == Pad && c3 == Pad then Some([Octet0(s0.value, s1.value)])
    else if s2.None? then None
    else if c3 == Pad then Some([Octet0(s0.value, s1.value), Octet1(s1.value, s2.value)])
    else if s3.None? then None
    else Some([Octet0(s0.value, s1.value), Octet1(s1.value, s2.value), Octet2(s2.value, s3.value)])
  }

  /**
   * Padded base64 back to octets. Fails on a length that is not a multiple
   * of four, on a character outside the alphabet, and on padding anywhere
   * but in the last group.
   */
  function Decode(s: string): (r: Option<seq<byte>>)
    decreases |s|
    ensures r.Some? ==> 4 * |r.value| <= 3 * |s|
  {
    if |s| == 0 then Some([])
    else if |s| < 4 then None
    else
      match DecodeGroup(s[0], s[1], s[2], s[3])
      case None => None
      case Some(head) =>
        if |head| < 3 && |s| > 4 then None
        else
          match Decode(s[4..])
          case None => None
          case Some(rest) => Some(head + rest)
  }

  lemma DecodeEncodeGroup(b0: byte, b1: byte, b2: byte)
    ensures var e := EncodeGroup(b0, b1, b2); DecodeGroup(e[0], e[1], e[2], e[3]) == Some([b0, b1, b2])
  {
    SextetOfCharOf(Sextet0(b0));
    SextetOfCharOf(Sextet1(b0, b1));
    SextetOfCharOf(Sextet2(b1, b2));
    SextetOfCharOf(Sextet3(b2));
    Octet0Split(b0, b1);
    Octet1Split(b0, b1, b2);
    Octet2Split(b1, b2);
  }

  lemma DecodeEncodeTail2(b0: byte, b1: byte)
    ensures var e := EncodeTail2(b0, b1); DecodeGroup(e[0], e[1], e[2], e[3]) == Some([b0, b1])
  {
    SextetOfCharOf(Sextet0(b0));
    SextetOfCharOf(Sextet1(b0, b1));
    SextetOfCharOf(Sextet2(b1, 0));
    Octet0Split(b0, b1);
    Octet1Split(b0, b1, 0);
  }

  lemma DecodeEncodeTail1(b0: byte)
    ensures var e := EncodeTail1(b0); DecodeGroup(e[0], e[1], e[2], e[3]) == Some([b0])
  {
    SextetOfCharOf(Sextet0(b0));
    SextetOfCharOf(Sextet1(b0, 0));
    Octet0Split(b0, 0);
  }

  /** Decoding a full group followed by more text: the group's octets, then the rest's. */
  lemma DecodeFullGroup(group: string, rest: string, octets: seq<byte>)
    requires |group| == 4 && |octets| == 3
    requires DecodeGroup(group[0], group[1], group[2], group[3]) == Some(octets)
    ensures Decode(group + rest) == if Decode(rest).Some? then Some(octets + Decode(rest).value) else None
  {
    var s := group + rest;
    assert s[0] == group[0] && s[1] == group[1] && s[2] == group[2] && s[3] == group[3];
    assert s[4..] == rest;
  }

  /** Decoding a lone final group. */
  lemma DecodeLastGroup(group: string, octets: seq<byte>)
    requires |group| == 4
    requires DecodeGroup(group[0], group[1], group[2], group[3]) == Some(octets)
    ensures Decode(group) == Some(octets)
  {
    assert group[4..] == [];
    assert octets + [] == octets;
  }

  /** The inductive step of the round trip: one more full group in front of a decodable text. */
  lemma DecodeEncodeStep(b0: byte, b1: byte, b2: byte, rest: string, tail: seq<byte>)
    requires Decode(rest) == Some(tail)
    ensures Decode(EncodeGroup(b0, b1, b2) + rest) == Some([b0, b1, b2] + tail)
  {
    DecodeEncodeGroup(b0, b1, b2);
    DecodeFullGroup(EncodeGroup(b0, b1, b2), rest, [b0, b1, b2]);
  }

  /** The base cases of the round trip: at most two octets, at most one group. */
  lemma DecodeEncodeShort(bytes: seq<byte>)
    requires |bytes| < 3
    ensures Decode(Encode(bytes)) == Some(bytes)
  {
    if |bytes| == 2 {
      DecodeEncodeTail2(bytes[0], bytes[1]);
      DecodeLastGroup(EncodeTail2(bytes[0], bytes[1]), [bytes[0], bytes[1]]);
      assert [bytes[0], bytes[1]] == bytes;
    } else if |bytes| == 1 {
      DecodeEncodeTail1(bytes[0]);
      DecodeLastGroup(EncodeTail1(bytes[0]), [bytes[0]]);
      assert [bytes[0]] == bytes;
    }
  }

  /** Decoding an encoding gives back exactly the octets that were encoded. */
  lemma {:induction false} DecodeEncode(bytes: seq<byte>)
    ensures Decode(Encode(bytes)) == Some(bytes)
    decreases |bytes|
  {
    if |bytes| >= 3 {
      DecodeEncode(bytes[3..]);
      DecodeEncodeStep(bytes[0], bytes[1], bytes[2], Encode(bytes[3..]), bytes[3..]);
      assert Encode(bytes) == EncodeGroup(bytes[0], bytes[1], bytes[2]) + Encode(bytes[3..]);
      assert [bytes[0], bytes[1], bytes[2]] + bytes[3..] == bytes;
    } else {
      DecodeEncodeShort(bytes);
    }
  }

  /**
   * Every character of an encoding is in the alphabet or is '=', and '='
   * only appears in the last group.
   */
  lemma {:induction false} EncodeCharacters(bytes: seq<byte>)
    ensures forall i :: 0 <= i < |Encode(bytes)| ==> IsAlphabetOrPad(Encode(bytes)[i])
    ensures forall i :: 0 <= i < |Encode(bytes)| - 4 ==> Encode(bytes)[i] != Pad
    decreases |bytes|
  {
    if |bytes| >= 3 {
      var e := EncodeGroup(bytes[0], bytes[1], bytes[2]);
      var rest := Encode(bytes[3..]);
      EncodeCharacters(bytes[3..]);
      forall i | 0 <= i < 4
        ensures IsAlphabetOrPad(e[i]) && e[i] != Pad
      {
        SextetOfCharOf(Sextet0(bytes[0]));
        SextetOfCharOf(Sextet1(bytes[0], bytes[1]));
        SextetOfCharOf(Sextet2(bytes[1], bytes[2]));
        SextetOfCharOf(Sextet3(bytes[2]));
      }
      assert forall i :: 4 <= i < |e + rest| ==> (e + rest)[i] == rest[i - 4];
    } else if |bytes| == 2 {
      SextetOfCharOf(Sextet0(bytes[0]));
      SextetOfCharOf(Sextet1(bytes[0], bytes[1]));
      SextetOfCharOf(Sextet2(bytes[1], 0));
    } else if |bytes| == 1 {
      SextetOfCharOf(Sextet0(bytes[0]));
      SextetOfCharOf(Sextet1(bytes[0], 0));
    }
  }

  /** Two byte strings with the same encoding are the same byte string. */
  lemma EncodeInjective(a: seq<byte>, b: seq<byte>)
    ensures Encode(a) == Encode(b) ==> a == b
  {
    DecodeEncode(a);
    DecodeEncode(b);
  }

  /** The test vectors of section 10 of RFC 4648 for "f", "fo" and "foo". */
  lemma RfcTestVectors()
    ensures Encode([102]) == "Zg=="
    ensures Encode([102, 111]) == "Zm8="
    ensures Encode([102, 111, 111]) == "Zm9v"
  {
    assert [102, 111, 111][3..] == [];
  }
}
