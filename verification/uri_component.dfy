/**
 * `encodeURIComponent`, which `getContent` applies to the supplied
 * password before appending it to the proxy download link: unreserved
 * characters stay, every other character becomes the `%XX` escapes of
 * its UTF-8 bytes, with upper-case hex digits.
 */
module UriComponent {
  import opened Wrappers
  import opened HexId

  /** The characters `encodeURIComponent` leaves alone. */
  predicate IsUnreserved(c: char) {
    || ('A' <= c <= 'Z') || ('a' <= c <= 'z') || ('0' <= c <= '9')
    || c == '-' || c == '_' || c == '.' || c == '!' || c == '~' || c == '*' || c == '\'' || c == '(' || c == ')'
  }

  /** UTF-8 encoding of one code point. */
  function Utf8(c: char): (bytes: seq<Byte>)
    ensures 1 <= |bytes| <= 4
    ensures |bytes| == 1 <==> c as int < 0x80
  {
    var cp := c as int;
    if cp < 0x80 then [cp]
    else if cp < 0x800 then [0xC0 + cp / 64, 0x80 + cp % 64]
    else if cp < 0x10000 then [0xE0 + cp / 4096, 0x80 + (cp / 64) % 64, 0x80 + cp % 64]
    else [0xF0 + cp / 262144, 0x80 + (cp / 4096) % 64, 0x80 + (cp / 64) % 64, 0x80 + cp % 64]
  }

  function Utf8Bytes(s: string): seq<Byte> {
    if |s| == 0 then [] else Utf8(s[0]) + Utf8Bytes(s[1..])
  }

  predicate IsUpperHexChar(c: char) {
    ('0' <= c <= '9') || ('A' <= c <= 'F')
  }

  function UpperHexDigit(v: int): (c: char)
    requires 0 <= v < 16
    ensures IsUpperHexChar(c) && IsUnreserved(c)
    ensures UpperHexValue(c) == v
  {
    if v < 10 then ('0' as int + v) as char else ('A' as int + v - 10) as char
  }

  function UpperHexValue(c: char): (v: int)
    requires IsUpperHexChar(c)
    ensures 0 <= v < 16
  {
    if c <= '9' then c as int - '0' as int else c as int - 'A' as int + 10
  }

  /** `%XX` escapes of a byte sequence. */
  function PercentBytes(bytes: seq<Byte>): (r: string)
    ensures |r| == 3 * |bytes|
    ensures forall k :: 0 <= k < |r| ==> IsUnreserved(r[k]) || r[k] == '%'
  {
    if |bytes| == 0 then ""
    else ['%', UpperHexDigit(bytes[0] / 16), UpperHexDigit(bytes[0] % 16)] + PercentBytes(bytes[1..])
  }

  function EncodeChar(c: char): string {
    if IsUnreserved(c) then [c] else PercentBytes(Utf8(c))
  }

  /** `encodeURIComponent(s)`. Its output can never carry `&`, `=`, `#`
      or `?`, so the encoded password stays one query parameter. */
  function EncodeUriComponent(s: string): (r: string)
    ensures |r| >= |s|
    ensures forall k :: 0 <= k < |r| ==> IsUnreserved(r[k]) || r[k] == '%'
  {
    if |s| == 0 then "" else EncodeChar(s[0]) + EncodeUriComponent(s[1..])
  }

  /** Percent-decoding to bytes: an unreserved character is its own ASCII
      byte, `%XX` is the byte with that hex value; anything else fails. */
  function DecodePercent(r: string): Option<seq<Byte>>
    decreases |r|
  {
    if |r| == 0 then Some([])
    else if r[0] == '%' then
      if |r| < 3 || !IsUpperHexChar(r[1]) || !IsUpperHexChar(r[2]) then None
      else match DecodePercent(r[3..])
        case None => None
        case Some(rest) => Some([UpperHexValue(r[1]) * 16 + UpperHexValue(r[2])] + rest)
    else if IsUnreserved(r[0]) then
      match DecodePercent(r[1..])
      case None => None
      case Some(rest) => Some([r[0] as int] + rest)
    else None
  }

  function Prepend(bytes: seq<Byte>, d: Option<seq<Byte>>): Option<seq<Byte>> {
    match d
    case None => None
    case Some(rest) => Some(bytes + rest)
  }

  lemma {:induction false} DecodePercentBytes(bytes: seq<Byte>, rest: string)
    ensures DecodePercent(PercentBytes(bytes) + rest) == Prepend(bytes, DecodePercent(rest))
  {
    if |bytes| > 0 {
      var r := PercentBytes(bytes) + rest;
      assert r[3..] == PercentBytes(bytes[1..]) + rest;
      DecodePercentBytes(bytes[1..], rest);
      var b := bytes[0];
      assert r[0] == '%' && r[1] == UpperHexDigit(b / 16) && r[2] == UpperHexDigit(b % 16);
      assert UpperHexValue(r[1]) * 16 + UpperHexValue(r[2]) == b;
      assert DecodePercent(r) == Prepend([b], DecodePercent(r[3..]));
      match DecodePercent(rest)
      case None =>
        assert DecodePercent(r[3..]) == None;
      case Some(t) =>
        assert DecodePercent(r[3..]) == Some(bytes[1..] + t);
        assert [b] + bytes[1..] == bytes;
        assert [b] + (bytes[1..] + t) == bytes + t;
    } else {
      assert PercentBytes(bytes) + rest == rest;
      match DecodePercent(rest)
      case None =>
      case Some(t) => assert bytes + t == t;
    }
  }

  lemma DecodeEncodeChar(c: char, rest: string)
    ensures DecodePercent(EncodeChar(c) + rest) == Prepend(Utf8(c), DecodePercent(rest))
  {
    if IsUnreserved(c) {
      assert ([c] + rest)[1..] == rest;
    } else {
      DecodePercentBytes(Utf8(c), rest);
    }
  }

  /** Percent-decoding the encoded text yields exactly the UTF-8 bytes of
      the input: nothing is lost or altered by the encoding. */
  lemma {:induction false} DecodeEncode(s: string)
    ensures DecodePercent(EncodeUriComponent(s)) == Some(Utf8Bytes(s))
  {
    if |s| > 0 {
      DecodeEncode(s[1..]);
      DecodeEncodeChar(s[0], EncodeUriComponent(s[1..]));
    }
  }

  /** A string of unreserved characters is encoded as itself. */
  lemma {:induction false} EncodeUnreserved(s: string)
    requires forall k :: 0 <= k < |s| ==> IsUnreserved(s[k])
    ensures EncodeUriComponent(s) == s
  {
    if |s| > 0 {
      EncodeUnreserved(s[1..]);
    }
  }
}
