/**
 * Link identifiers and delete tokens: 16 random bytes rendered as 32
 * lower-case hexadecimal characters, two per byte, high nibble first.
 * The random bytes are an input of the model.
 */
module HexId {
  import opened Wrappers

  type Byte = b: int | 0 <= b < 256

  /** Number of random bytes behind one identifier or token. */
  const IdBytes := 16

  predicate IsLowerHexChar(c: char) {
    ('0' <= c <= '9') || ('a' <= c <= 'f')
  }

  /** A well-formed identifier: exactly 32 lower-case hex characters. */
  predicate IsHexId(s: string) {
    |s| == 2 * IdBytes && forall k :: 0 <= k < |s| ==> IsLowerHexChar(s[k])
  }

  function HexDigit(v: int): (c: char)
    requires 0 <= v < 16
    ensures IsLowerHexChar(c)
  {
    if v < 10 then ('0' as int + v) as char else ('a' as int + v - 10) as char
  }

  function HexValue(c: char): (v: int)
    requires IsLowerHexChar(c)
    ensures 0 <= v < 16
    ensures HexDigit(v) == c
  {
    if c <= '9' then c as int - '0' as int else c as int - 'a' as int + 10
  }

  lemma HexDigitValue(v: int)
    requires 0 <= v < 16
    ensures HexValue(HexDigit(v)) == v
  {
  }

  /** `Buffer.toString("hex")`. */
  function EncodeHex(bytes: seq<Byte>): (s: string)
    ensures |s| == 2 * |bytes|
    ensures forall i :: 0 <= i < |bytes| ==>
      s[2 * i] == HexDigit(bytes[i] / 16) && s[2 * i + 1] == HexDigit(bytes[i] % 16)
    ensures forall k :: 0 <= k < |s| ==> IsLowerHexChar(s[k])
  {
    if |bytes| == 0 then ""
    else [HexDigit(bytes[0] / 16), HexDigit(bytes[0] % 16)] + EncodeHex(bytes[1..])
  }

  /** The inverse reading: pairs of lower-case hex digits back to bytes;
      `None` for an odd length or a character outside `0-9a-f`. */
  function DecodeHex(s: string): Option<seq<Byte>>
    decreases |s|
  {
    if |s| == 0 then Some([])
    else if |s| == 1 || !IsLowerHexChar(s[0]) || !IsLowerHexChar(s[1]) then None
    else
      match DecodeHex(s[2..])
      case None => None
      case Some(rest) => Some([HexValue(s[0]) * 16 + HexValue(s[1])] + rest)
  }

  /** Decoding recovers the bytes that were encoded. */
  lemma {:induction false} DecodeEncode(bytes: seq<Byte>)
    ensures DecodeHex(EncodeHex(bytes)) == Some(bytes)
  {
    if |bytes| > 0 {
      var s := EncodeHex(bytes);
      assert s[2..] == EncodeHex(bytes[1..]);
      DecodeEncode(bytes[1..]);
      HexDigitValue(bytes[0] / 16);
      HexDigitValue(bytes[0] % 16);
      assert [bytes[0]] + bytes[1..] == bytes;
    }
  }

  /** Every even-length lower-case hex string is the encoding of the bytes
      it decodes to, so the two functions are inverse bijections. */
  lemma {:induction false} EncodeDecode(s: string)
    requires |s| % 2 == 0
    requires forall k :: 0 <= k < |s| ==> IsLowerHexChar(s[k])
    ensures DecodeHex(s).Some? && EncodeHex(DecodeHex(s).value) == s
  {
    if |s| > 0 {
      EncodeDecode(s[2..]);
      var rest := DecodeHex(s[2..]).value;
      var b := HexValue(s[0]) * 16 + HexValue(s[1]);
      assert b / 16 == HexValue(s[0]) && b % 16 == HexValue(s[1]);
      assert ([b] + rest)[1..] == rest;
      assert s == s[..2] + s[2..];
    }
  }

  /** Distinct byte strings never share an identifier. */
  lemma EncodeInjective(a: seq<Byte>, b: seq<Byte>)
    requires EncodeHex(a) == EncodeHex(b)
    ensures a == b
  {
    DecodeEncode(a);
    DecodeEncode(b);
  }

  /** `generateId()` and the delete token of `uploadContent`: the hex
      rendering of 16 random bytes. */
  function GenerateId(random: seq<Byte>): (id: string)
    requires |random| == IdBytes
    ensures IsHexId(id)
    ensures DecodeHex(id) == Some(random)
  {
    DecodeEncode(random);
    EncodeHex(random)
  }
}
