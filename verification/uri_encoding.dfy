/** JavaScript's `encodeURIComponent`, as the handler uses it to build the
    retry URL: every character outside the unreserved set
    `A-Z a-z 0-9 - _ . ! ~ * ' ( )` is written as its UTF-8 bytes, each byte
    as `%XX` with upper-case hexadecimal digits (the percent-encoding of
    section 2.1 of RFC 3986, over the UTF-8 of section 3 of RFC 3629).
    Its partner is percent-decoding, which recovers the UTF-8 bytes. */
module UriEncoding {
  import opened Wrappers

  newtype byte = x: int | 0 <= x < 0x100

  /** The characters `encodeURIComponent` leaves as they are. */
  predicate IsUnreserved(c: char) {
    ('A' <= c <= 'Z') || ('a' <= c <= 'z') || ('0' <= c <= '9') || c == '-' || c == '_' || c == '.' || c == '!' || c == '~' || c == '*' || c == '\'' || c == '(' || c == ')'
  }

  predicate AllUnreserved(s: string) {
    forall i :: 0 <= i < |s| ==> IsUnreserved(s[i])
  }

  /** The UTF-8 bytes of one Unicode scalar value. */
  function Utf8(c: char): (bytes: seq<byte>)
    ensures 1 <= |bytes| <= 4
    ensures |bytes| == 1 <==> c as int < 0x80
  {
    var cp := c as int;
    if cp < 0x80 then
      [cp as byte]
    else if cp < 0x800 then
      [(0xC0 + cp / 0x40) as byte, (0x80 + cp % 0x40) as byte]
    else if cp < 0x1_0000 then
      [(0xE0 + cp / 0x1000) as byte, (0x80 + cp / 0x40 % 0x40) as byte, (0x80 + cp % 0x40) as byte]
    else
      [(0xF0 + cp / 0x4_0000) as byte, (0x80 + cp / 0x1000 % 0x40) as byte,
       (0x80 + cp / 0x40 % 0x40) as byte, (0x80 + cp % 0x40) as byte]
  }

  /** Reads back the scalar value of one UTF-8 sequence of one to four bytes;
      `None` for a lead or continuation byte out of place. */
  function Utf8Decode(bytes: seq<byte>): (cp: Option<int>)
  {
    if |bytes| == 1 && bytes[0] < 0x80 then
      Some(bytes[0] as int)
    else if |bytes| == 2 && 0xC0 <= bytes[0] < 0xE0 && IsContinuation(bytes[1]) then
      Some((bytes[0] as int - 0xC0) * 0x40 + (bytes[1] as int - 0x80))
    else if |bytes| == 3 && 0xE0 <= bytes[0] < 0xF0 && IsContinuation(bytes[1]) && IsContinuation(bytes[2]) then
      Some((bytes[0] as int - 0xE0) * 0x1000 + (bytes[1] as int - 0x80) * 0x40 + (bytes[2] as int - 0x80))
    else if |bytes| == 4 && 0xF0 <= bytes[0] < 0xF8
         && IsContinuation(bytes[1]) && IsContinuation(bytes[2]) && IsContinuation(bytes[3]) then
      Some((bytes[0] as int - 0xF0) * 0x4_0000 + (bytes[1] as int - 0x80) * 0x1000
           + (bytes[2] as int - 0x80) * 0x40 + (bytes[3] as int - 0x80))
    else
      None
  }

  predicate IsContinuation(b: byte) {
    0x80 <= b < 0xC0
  }

  /** A value below 2^(6n) is rebuilt from its top bits and its low six bits. */
  lemma SplitLowSix(cp: int)
    requires 0 <= cp
    ensures cp == cp / 0x40 * 0x40 + cp % 0x40
    ensures cp / 0x40 == cp / 0x1000 * 0x40 + cp / 0x40 % 0x40
    ensures cp / 0x1000 == cp / 0x4_0000 * 0x40 + cp / 0x1000 % 0x40
  {
  }

  /** UTF-8 is decodable: the bytes of a character read back as that character. */
  lemma Utf8RoundTrip(c: char)
    ensures Utf8Decode(Utf8(c)) == Some(c as int)
  {
    SplitLowSix(c as int);
  }

  const HexDigits: string := "0123456789ABCDEF"

  /** The value of a hexadecimal digit, either case, as `decodeURIComponent` reads it. */
  function HexValue(c: char): (v: Option<nat>)
    ensures v.Some? ==> v.value < 16
  {
    if '0' <= c <= '9' then Some(c as int - '0' as int)
    else if 'A' <= c <= 'F' then Some(c as int - 'A' as int + 10)
    else if 'a' <= c <= 'f' then Some(c as int - 'a' as int + 10)
    else None
  }

  /** One byte as `%XX`. */
  function PercentByte(b: byte): (t: string)
    ensures |t| == 3 && t[0] == '%'
  {
    ['%', HexDigits[b / 16], HexDigits[b % 16]]
  }

  /** Every byte of `bytes` as `%XX`, in order. */
  function PercentBytes(bytes: seq<byte>): (t: string)
    ensures |t| == 3 * |bytes|
  {
    if bytes == [] then "" else PercentByte(bytes[0]) + PercentBytes(bytes[1..])
  }

  /** One character: itself when unreserved, otherwise its escaped UTF-8 bytes. */
  function EncodeChar(c: char): (t: string)
  {
    if IsUnreserved(c) then [c] else PercentBytes(Utf8(c))
  }

  /** `encodeURIComponent(s)`. The result holds only unreserved characters
      and `%`, and a string of unreserved characters comes back unchanged. */
  function EncodeURIComponent(s: string): (t: string)
    ensures forall i :: 0 <= i < |t| ==> IsUnreserved(t[i]) || t[i] == '%'
    ensures AllUnreserved(s) ==> t == s
  {
    if s == "" then ""
    else
      PercentBytesSafe(if IsUnreserved(s[0]) then [] else Utf8(s[0]));
      EncodeChar(s[0]) + EncodeURIComponent(s[1..])
  }

  lemma PercentBytesSafe(bytes: seq<byte>)
    ensures forall i :: 0 <= i < |PercentBytes(bytes)| ==> IsUnreserved(PercentBytes(bytes)[i]) || PercentBytes(bytes)[i] == '%'
  {
    if bytes != [] {
      PercentBytesSafe(bytes[1..]);
      var t := PercentBytes(bytes);
      var head := PercentByte(bytes[0]);
      assert t == head + PercentBytes(bytes[1..]);
      forall i | 0 <= i < |t| ensures IsUnreserved(t[i]) || t[i] == '%' {
        if i < 3 {
          assert t[i] == head[i];
          assert IsUnreserved(HexDigits[bytes[0] / 16]) && IsUnreserved(HexDigits[bytes[0] % 16]);
        } else {
          assert t[i] == PercentBytes(bytes[1..])[i - 3];
        }
      }
    }
  }

  /** Encoding distributes over concatenation. */
  lemma {:induction false} EncodeAppend(a: string, b: string)
    ensures EncodeURIComponent(a + b) == EncodeURIComponent(a) + EncodeURIComponent(b)
  {
    if a != "" {
      assert (a + b)[0] == a[0];
      assert (a + b)[1..] == a[1..] + b;
      EncodeAppend(a[1..], b);
    } else {
      assert a + b == b;
    }
  }

  /** The UTF-8 bytes of a whole string. */
  function Utf8String(s: string): (bytes: seq<byte>)
  {
    if s == "" then [] else Utf8(s[0]) + Utf8String(s[1..])
  }

  /** `decodeURIComponent` down to bytes: `%XX` becomes the byte XX, an
      unreserved character its ASCII code, anything else is rejected. */
  function PercentDecode(t: string): (r: Option<seq<byte>>)
  {
    if t == "" then Some([])
    else if t[0] == '%' then
      if |t| < 3 || HexValue(t[1]).None? || HexValue(t[2]).None? then None
      else
        match PercentDecode(t[3..])
        case None => None
        case Some(rest) => Some([(HexValue(t[1]).value * 16 + HexValue(t[2]).value) as byte] + rest)
    else if IsUnreserved(t[0]) then
      match PercentDecode(t[1..])
      case None => None
      case Some(rest) => Some([t[0] as int as byte] + rest)
    else None
  }

  lemma HexRoundTrip(n: nat)
    requires n < 16
    ensures HexValue(HexDigits[n]) == Some(n)
  {
  }

  /** `%` and two hexadecimal digits decode to the byte they spell. */
  lemma DecodeEscape(c1: char, c2: char, t: string)
    requires HexValue(c1).Some? && HexValue(c2).Some?
    ensures PercentDecode(t).None? ==> PercentDecode(['%', c1, c2] + t).None?
    ensures PercentDecode(t).Some? ==>
      PercentDecode(['%', c1, c2] + t)
      == Some([(HexValue(c1).value * 16 + HexValue(c2).value) as byte] + PercentDecode(t).value)
  {
    var u := ['%', c1, c2] + t;
    assert u[0] == '%' && u[1] == c1 && u[2] == c2 && u[3..] == t;
  }

  /** One `%XX` decodes to its byte, ahead of whatever follows. */
  lemma DecodePercentByte(b: byte, t: string)
    ensures PercentDecode(t).None? ==> PercentDecode(PercentByte(b) + t).None?
    ensures PercentDecode(t).Some? ==> PercentDecode(PercentByte(b) + t) == Some([b] + PercentDecode(t).value)
  {
    var hi, lo := (b / 16) as nat, (b % 16) as nat;
    HexRoundTrip(hi);
    HexRoundTrip(lo);
    DecodeEscape(HexDigits[hi], HexDigits[lo], t);
    assert (hi * 16 + lo) as byte == b;
  }

  /** Escaped bytes decode to those bytes, ahead of whatever follows. */
  lemma {:induction false} DecodePercentBytes(bytes: seq<byte>, t: string)
    ensures PercentDecode(t).None? ==> PercentDecode(PercentBytes(bytes) + t).None?
    ensures PercentDecode(t).Some? ==> PercentDecode(PercentBytes(bytes) + t) == Some(bytes + PercentDecode(t).value)
  {
    if bytes != [] {
      var b := bytes[0];
      var t' := PercentBytes(bytes[1..]) + t;
      assert PercentBytes(bytes) + t == PercentByte(b) + t';
      DecodePercentByte(b, t');
      DecodePercentBytes(bytes[1..], t);
      if PercentDecode(t).Some? {
        assert [b] + (bytes[1..] + PercentDecode(t).value) == bytes + PercentDecode(t).value;
      }
    } else {
      assert PercentBytes(bytes) + t == t;
      assert bytes + [] == [];
      if PercentDecode(t).Some? {
        assert bytes + PercentDecode(t).value == PercentDecode(t).value;
      }
    }
  }

  /** Decoding undoes encoding: what `encodeURIComponent` produces decodes to
      exactly the UTF-8 bytes of the original string. */
  lemma {:induction false} EncodeDecode(s: string)
    ensures PercentDecode(EncodeURIComponent(s)) == Some(Utf8String(s))
  {
    if s != "" {
      var c := s[0];
      var rest := EncodeURIComponent(s[1..]);
      EncodeDecode(s[1..]);
      if IsUnreserved(c) {
        assert EncodeURIComponent(s) == [c] + rest;
        assert ([c] + rest)[1..] == rest;
      } else {
        DecodePercentBytes(Utf8(c), rest);
      }
    }
  }
}
