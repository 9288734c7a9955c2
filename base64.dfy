/** Base64 with the standard alphabet and `=` padding (section 4 of
    RFC 4648): `base64.b64encode` and `base64.b64decode`. */
module Base64 {
  import opened Common

  /** A 6-bit value. */
  type sextet = x: int | 0 <= x < 64

  /** The character of the base64 alphabet for a 6-bit value:
      A-Z for 0-25, a-z for 26-51, 0-9 for 52-61, '+' for 62, '/' for 63. */
  function AlphabetChar(v: sextet): (c: char)
    ensures c != '='
  {
    if v < 26 then ('A' as int + v) as char
    else if v < 52 then ('a' as int + (v - 26)) as char
    else if v < 62 then ('0' as int + (v - 52)) as char
    else if v == 62 then '+'
    else '/'
  }

  /** The 6-bit value of an alphabet character; None for any other character,
      the padding character included. */
  function AlphabetValue(c: char): (r: Option<sextet>)
    ensures r.Some? ==> AlphabetChar(r.value) == c
  {
    if 'A' <= c <= 'Z' then Some(c as int - 'A' as int)
    else if 'a' <= c <= 'z' then Some(c as int - 'a' as int + 26)
    else if '0' <= c <= '9' then Some(c as int - '0' as int + 52)
    else if c == '+' then Some(62)
    else if c == '/' then Some(63)
    else None
  }

  lemma AlphabetRoundTrip(v: sextet)
    ensures AlphabetValue(AlphabetChar(v)) == Some(v)
  {
  }

  predicate InAlphabet(c: char)
  {
    AlphabetValue(c).Some?
  }

  // ---------------------------------------------------------------------
  // Regrouping 8-bit values into 6-bit values and back

  // Three bytes b0 b1 b2 are the 24 bits s0 s1 s2 s3, six bits each.
  function Sextet0(b0: byte): sextet { b0 / 4 }
  function Sextet1(b0: byte, b1: byte): sextet { (b0 % 4) * 16 + b1 / 16 }
  function Sextet2(b1: byte, b2: byte): sextet { (b1 % 16) * 4 + b2 / 64 }
  function Sextet3(b2: byte): sextet { b2 % 64 }

  function Byte0(s0: sextet, s1: sextet): byte { s0 as int * 4 + s1 as int / 16 }
  function Byte1(s1: sextet, s2: sextet): byte { (s1 as int % 16) * 16 + s2 as int / 4 }
  function Byte2(s2: sextet, s3: sextet): byte { (s2 as int % 4) * 64 + s3 as int }

  lemma Regroup(b0: byte, b1: byte, b2: byte)
    ensures Byte0(Sextet0(b0), Sextet1(b0, b1)) == b0
    ensures Byte1(Sextet1(b0, b1), Sextet2(b1, b2)) == b1
    ensures Byte2(Sextet2(b1, b2), Sextet3(b2)) == b2
  {
  }

  // ---------------------------------------------------------------------
  // Encoding

  /** Three bytes as four characters. */
  function EncodeTriple(b0: byte, b1: byte, b2: byte): string
  {
    [AlphabetChar(Sextet0(b0)), AlphabetChar(Sextet1(b0, b1)),
     AlphabetChar(Sextet2(b1, b2)), AlphabetChar(Sextet3(b2))]
  }

  /** The last one or two bytes, padded with `=` to four characters (the
      missing bytes count as zero bits). */
  function EncodeTail(b: seq<byte>): string
    requires 1 <= |b| <= 2
  {
    if |b| == 1 then [AlphabetChar(Sextet0(b[0])), AlphabetChar(Sextet1(b[0], 0)), '=', '=']
    else [AlphabetChar(Sextet0(b[0])), AlphabetChar(Sextet1(b[0], b[1])),
          AlphabetChar(Sextet2(b[1], 0)), '=']
  }

  /** `base64.b64encode`: four characters for every started group of three
      bytes, only alphabet characters before the padding. */
  function Encode(b: seq<byte>): (s: string)
    ensures |s| == 4 * ((|b| + 2) / 3)
    ensures forall k :: 0 <= k < |s| ==> InAlphabet(s[k]) || s[k] == '='
  {
    if |b| == 0 then []
    else if |b| < 3 then EncodeTail(b)
    else EncodeTriple(b[0], b[1], b[2]) + Encode(b[3..])
  }

  /** The text is whole groups of four characters, at least one for some bytes. */
  lemma EncodeGroups(b: seq<byte>)
    ensures |Encode(b)| % 4 == 0
    ensures |b| > 0 ==> |Encode(b)| > 0
  {
    var groups := (|b| + 2) / 3;
    assert |Encode(b)| == 4 * groups;
  }

  // ---------------------------------------------------------------------
  // Decoding

  /** The bytes of one group of four characters, the last group of the text
      when `last` holds (only the last group may carry padding). Unused
      low bits before the padding are ignored, as Python does. */
  function DecodeQuad(q: string, last: bool): Option<seq<byte>>
    requires |q| == 4
  {
    var v0, v1, v2, v3 := AlphabetValue(q[0]), AlphabetValue(q[1]), AlphabetValue(q[2]), AlphabetValue(q[3]);
    if v0.None? || v1.None? then None
    else if v2.Some? && v3.Some? then
      Some([Byte0(v0.value, v1.value), Byte1(v1.value, v2.value), Byte2(v2.value, v3.value)])
    else if last && v2.Some? && q[3] == '=' then
      Some([Byte0(v0.value, v1.value), Byte1(v1.value, v2.value)])
    else if last && q[2] == '=' && q[3] == '=' then
      Some([Byte0(v0.value, v1.value)])
    else None
  }

  /** `base64.b64decode`: None where Python raises `binascii.Error`. */
  function Decode(s: string): Option<seq<byte>>
    decreases |s|
  {
    if |s| == 0 then Some([])
    else if |s| < 4 then None
    else match DecodeQuad(s[..4], |s| == 4)
      case None => None
      case Some(head) =>
        match Decode(s[4..])
        case None => None
        case Some(rest) => Some(head + rest)
  }

  /** Every group of four characters gives three bytes, the last one one to three. */
  lemma {:induction false} DecodeLength(s: string)
    ensures Decode(s).Some? ==> 3 * |s| <= 4 * |Decode(s).value| + 8 && 4 * |Decode(s).value| <= 3 * |s|
    decreases |s|
  {
    if |s| >= 4 && Decode(s).Some? {
      DecodeLength(s[4..]);
      if |s| == 4 {
        assert s[4..] == [];
      }
    }
  }

  // ---------------------------------------------------------------------
  // Round trip

  lemma DecodeEncodeTriple(b0: byte, b1: byte, b2: byte, last: bool)
    ensures DecodeQuad(EncodeTriple(b0, b1, b2), last) == Some([b0, b1, b2])
  {
    AlphabetRoundTrip(Sextet0(b0));
    AlphabetRoundTrip(Sextet1(b0, b1));
    AlphabetRoundTrip(Sextet2(b1, b2));
    AlphabetRoundTrip(Sextet3(b2));
    Regroup(b0, b1, b2);
  }

  lemma DecodeEncodeOne(b0: byte)
    ensures DecodeQuad(EncodeTail([b0]), true) == Some([b0])
  {
    var q := EncodeTail([b0]);
    var s0, s1 := Sextet0(b0), Sextet1(b0, 0);
    assert q == [AlphabetChar(s0), AlphabetChar(s1), '=', '='];
    AlphabetRoundTrip(s0);
    AlphabetRoundTrip(s1);
    assert AlphabetValue(q[0]) == Some(s0);
    assert AlphabetValue(q[1]) == Some(s1);
    assert AlphabetValue(q[2]) == None && AlphabetValue(q[3]) == None;
    assert q[2] == '=' && q[3] == '=';
    assert DecodeQuad(q, true) == Some([Byte0(s0, s1)]);
    Regroup(b0, 0, 0);
    assert Byte0(s0, s1) == b0;
  }

  lemma DecodeEncodeTwo(b0: byte, b1: byte)
    ensures DecodeQuad(EncodeTail([b0, b1]), true) == Some([b0, b1])
  {
    var q := EncodeTail([b0, b1]);
    AlphabetRoundTrip(Sextet0(b0));
    AlphabetRoundTrip(Sextet1(b0, b1));
    AlphabetRoundTrip(Sextet2(b1, 0));
    assert AlphabetValue(q[3]) == None;
    Regroup(b0, b1, 0);
  }

  lemma DecodeEncodeTail(b: seq<byte>)
    requires 1 <= |b| <= 2
    ensures DecodeQuad(EncodeTail(b), true) == Some(b)
  {
    if |b| == 1 {
      assert b == [b[0]];
      DecodeEncodeOne(b[0]);
    } else {
      assert b == [b[0], b[1]];
      DecodeEncodeTwo(b[0], b[1]);
    }
  }

  lemma RoundTripShort(b: seq<byte>)
    requires 1 <= |b| < 3
    ensures Decode(Encode(b)) == Some(b)
  {
    var s := Encode(b);
    DecodeEncodeTail(b);
    assert s == EncodeTail(b) && |s| == 4;
    assert s[..4] == s && s[4..] == [];
    assert Decode(s[4..]) == Some([]);
    assert b + [] == b;
  }

  /** Decoding the base64 text of some bytes gives the bytes back. */
  lemma {:induction false} RoundTrip(b: seq<byte>)
    ensures Decode(Encode(b)) == Some(b)
    decreases |b|
  {
    if |b| == 0 {
    } else if |b| < 3 {
      RoundTripShort(b);
    } else {
      RoundTrip(b[3..]);
      EncodeHead(b);
      RoundTripStep(b, Encode(b));
    }
  }

  /** Text whose first group decodes to the first three bytes, followed by
      text that decodes to the rest, decodes to all of them. */
  lemma RoundTripStep(b: seq<byte>, s: string)
    requires |b| >= 3 && |s| >= 4
    requires DecodeQuad(s[..4], |s| == 4) == Some(b[..3])
    requires Decode(s[4..]) == Some(b[3..])
    ensures Decode(s) == Some(b)
  {
    assert b[..3] + b[3..] == b;
  }

  /** The text for three or more bytes starts with the group of the first
      three, which decodes to them, followed by the text for the rest. */
  lemma EncodeHead(b: seq<byte>)
    requires |b| >= 3
    ensures |Encode(b)| >= 4 && Encode(b)[4..] == Encode(b[3..])
    ensures DecodeQuad(Encode(b)[..4], |Encode(b)| == 4) == Some(b[..3])
  {
    var head := EncodeTriple(b[0], b[1], b[2]);
    assert Encode(b) == head + Encode(b[3..]);
    assert Encode(b)[..4] == head;
    DecodeEncodeTriple(b[0], b[1], b[2], |Encode(b)| == 4);
    assert b[..3] == [b[0], b[1], b[2]];
  }

}
