/**
  The browser's `encodeURIComponent`, which the sidebar applies to every path
  segment, and its inverse `decodeURIComponent`.

  A character is left as it is when it is an ASCII letter, an ASCII digit or one
  of `- _ . ! ~ * ' ( )`; every other character is written as the UTF-8 bytes of
  its code point, each byte as `%` followed by two upper-case hexadecimal digits
  (percent-encoding, section 2.1 of RFC 3986). In particular the reserved `/`
  (section 2.2 of RFC 3986) is always escaped, as `%2F`.
*/
module UriComponent {
  import opened Wrappers

  type Byte = b: int | 0 <= b < 256

  /** The characters `encodeURIComponent` does not escape. */
  predicate IsUnreserved(c: char) {
    ('A' <= c <= 'Z') || ('a' <= c <= 'z') || ('0' <= c <= '9') ||
    c == '-' || c == '_' || c == '.' || c == '!' || c == '~' ||
    c == '*' || c == '\'' || c == '(' || c == ')'
  }

  /** The UTF-8 encoding of one Unicode scalar value. */
  function Utf8(c: char): (bs: seq<Byte>)
    ensures 1 <= |bs| <= 4
    ensures |bs| == 1 <==> c as int < 0x80
  {
    var n := c as int;
    if n < 0x80 then [n]
    else if n < 0x800 then [0xC0 + n / 64, 0x80 + n % 64]
    else if n < 0x10000 then [0xE0 + n / 4096, 0x80 + n / 64 % 64, 0x80 + n % 64]
    else [0xF0 + n / 262144, 0x80 + n / 4096 % 64, 0x80 + n / 64 % 64, 0x80 + n % 64]
  }

  /** An upper-case hexadecimal digit. */
  function HexDigit(n: int): (c: char)
    requires 0 <= n < 16
    ensures IsUnreserved(c)
  {
    if n < 10 then ('0' as int + n) as char else ('A' as int + n - 10) as char
  }

  /** The value of a hexadecimal digit; `decodeURIComponent` accepts both cases. */
  function HexValue(c: char): (r: Option<int>)
    ensures r.Some? ==> 0 <= r.value < 16
  {
    if '0' <= c <= '9' then Some(c as int - '0' as int)
    else if 'A' <= c <= 'F' then Some(c as int - 'A' as int + 10)
    else if 'a' <= c <= 'f' then Some(c as int - 'a' as int + 10)
    else None
  }

  /** One byte written as `%XY`. */
  function EscapeByte(b: Byte): string {
    ['%', HexDigit(b / 16), HexDigit(b % 16)]
  }

  /** The bytes written one after the other as `%XY`, each `X` and `Y` a hex digit of the byte. */
  function EscapeBytes(bs: seq<Byte>): (t: string)
    ensures |t| == 3 * |bs|
    ensures forall i :: 0 <= i < |t| ==> IsUnreserved(t[i]) || t[i] == '%'
    ensures |bs| > 0 ==> t[0] == '%'
    ensures forall i :: 0 <= i < |bs| ==>
      t[3 * i] == '%' && HexValue(t[3 * i + 1]) == Some(bs[i] / 16) && HexValue(t[3 * i + 2]) == Some(bs[i] % 16)
  {
    if bs == [] then []
    else
      var head, rest := EscapeByte(bs[0]), EscapeBytes(bs[1..]);
      HexRoundTrip(bs[0] / 16);
      HexRoundTrip(bs[0] % 16);
      var t := head + rest;
      assert forall i :: 0 <= i < |bs| ==>
        t[3 * i] == '%' && HexValue(t[3 * i + 1]) == Some(bs[i] / 16) && HexValue(t[3 * i + 2]) == Some(bs[i] % 16)
      by {
        forall i | 1 <= i < |bs|
          ensures t[3 * i] == '%' && HexValue(t[3 * i + 1]) == Some(bs[i] / 16) && HexValue(t[3 * i + 2]) == Some(bs[i] % 16)
        {
          var k := 3 * (i - 1);
          assert bs[i] == bs[1..][i - 1];
          assert t[3 * i] == rest[k] && t[3 * i + 1] == rest[k + 1] && t[3 * i + 2] == rest[k + 2];
        }
      }
      t
  }

  /** `encodeURIComponent` applied to one character. */
  function EncodeChar(c: char): (t: string)
    ensures |t| >= 1
    ensures forall i :: 0 <= i < |t| ==> IsUnreserved(t[i]) || t[i] == '%'
  {
    if IsUnreserved(c) then [c] else EscapeBytes(Utf8(c))
  }

  /**
    `encodeURIComponent`. The result consists of unreserved characters and
    escapes only, so it never contains `/`.
  */
  function Encode(s: string): (t: string)
    ensures forall i :: 0 <= i < |t| ==> IsUnreserved(t[i]) || t[i] == '%'
    ensures '/' !in t
    ensures |s| <= |t|
  {
    if s == [] then [] else EncodeChar(s[0]) + Encode(s[1..])
  }

  /** Reads one `%XY` escape at the start of `t`. */
  function ReadByte(t: string): Option<Byte> {
    if |t| < 3 || t[0] != '%' then None
    else match (HexValue(t[1]), HexValue(t[2]))
      case (Some(h), Some(l)) => Some(16 * h + l)
      case _ => None
  }

  /** Reads `k` consecutive escapes at the start of `t`. */
  function ReadBytes(t: string, k: nat): (r: Option<seq<Byte>>)
    ensures r.Some? ==> |r.value| == k && 3 * k <= |t|
  {
    if k == 0 then Some([])
    else match ReadByte(t)
      case None => None
      case Some(b) =>
        match ReadBytes(t[3..], k - 1)
        case None => None
        case Some(bs) => Some([b] + bs)
  }

  /** The length of a UTF-8 sequence announced by its leading byte; 0 when the byte cannot lead one. */
  function SequenceLength(b: Byte): nat {
    if b < 0x80 then 1
    else if 0xC0 <= b < 0xE0 then 2
    else if 0xE0 <= b < 0xF0 then 3
    else if 0xF0 <= b < 0xF8 then 4
    else 0
  }

  predicate IsContinuation(b: Byte) {
    0x80 <= b < 0xC0
  }

  /**
    The character a complete UTF-8 sequence stands for, or None for an
    overlong form, a surrogate or a value beyond U+10FFFF.
  */
  function DecodeUtf8(bs: seq<Byte>): Option<char> {
    if |bs| == 1 then
      if bs[0] < 0x80 then Some(bs[0] as char) else None
    else if |bs| == 2 then
      if 0xC0 <= bs[0] < 0xE0 && IsContinuation(bs[1]) then
        var n: int := (bs[0] as int - 0xC0) * 64 + (bs[1] as int - 0x80);
        if 0x80 <= n then Some(n as char) else None
      else None
    else if |bs| == 3 then
      if 0xE0 <= bs[0] < 0xF0 && IsContinuation(bs[1]) && IsContinuation(bs[2]) then
        var n: int := (bs[0] as int - 0xE0) * 4096 + (bs[1] as int - 0x80) * 64 + (bs[2] as int - 0x80);
        if 0x800 <= n && !(0xD800 <= n < 0xE000) then Some(n as char) else None
      else None
    else if |bs| == 4 then
      if 0xF0 <= bs[0] < 0xF8 && IsContinuation(bs[1]) && IsContinuation(bs[2]) && IsContinuation(bs[3]) then
        var n: int := (bs[0] as int - 0xF0) * 262144 + (bs[1] as int - 0x80) * 4096 + (bs[2] as int - 0x80) * 64 + (bs[3] as int - 0x80);
        if 0x10000 <= n <= 0x10FFFF then Some(n as char) else None
      else None
    else None
  }

  /**
    `decodeURIComponent`: None where the browser throws a URIError (a `%` not
    followed by two hexadecimal digits, or escapes that are not valid UTF-8).
  */
  function Decode(t: string): Option<string>
    decreases |t|
  {
    if t == [] then Some([])
    else if t[0] != '%' then
      match Decode(t[1..])
      case None => None
      case Some(rest) => Some([t[0]] + rest)
    else
      match ReadByte(t)
      case None => None
      case Some(b0) =>
        var k := SequenceLength(b0);
        if k == 0 then None
        else
          match ReadBytes(t, k)
          case None => None
          case Some(bs) =>
            match DecodeUtf8(bs)
            case None => None
            case Some(c) =>
              match Decode(t[3 * k..])
              case None => None
              case Some(rest) => Some([c] + rest)
  }

  lemma HexRoundTrip(n: int)
    requires 0 <= n < 16
    ensures HexValue(HexDigit(n)) == Some(n)
  {
  }

  lemma ReadEscapedByte(b: Byte, rest: string)
    ensures ReadByte(EscapeByte(b) + rest) == Some(b)
  {
    var t := EscapeByte(b) + rest;
    HexRoundTrip(b / 16);
    HexRoundTrip(b % 16);
    assert t[1] == HexDigit(b / 16) && t[2] == HexDigit(b % 16);
  }

  /** Reading back the escapes of a byte sequence yields those bytes. */
  lemma {:induction false} ReadEscapedBytes(bs: seq<Byte>, rest: string)
    ensures ReadBytes(EscapeBytes(bs) + rest, |bs|) == Some(bs)
  {
    if bs != [] {
      var t := EscapeBytes(bs) + rest;
      assert t == EscapeByte(bs[0]) + (EscapeBytes(bs[1..]) + rest);
      ReadEscapedByte(bs[0], EscapeBytes(bs[1..]) + rest);
      assert t[3..] == EscapeBytes(bs[1..]) + rest;
      ReadEscapedBytes(bs[1..], rest);
      assert [bs[0]] + bs[1..] == bs;
    }
  }

  lemma Utf8TwoBytes(n: int)
    requires 0x80 <= n < 0x800
    ensures 0xC0 <= 0xC0 + n / 64 < 0xE0 && 0 <= n % 64 < 64
    ensures (n / 64) * 64 + n % 64 == n
  {
  }

  lemma Utf8ThreeBytes(n: int)
    requires 0x800 <= n < 0x10000
    ensures 0xE0 <= 0xE0 + n / 4096 < 0xF0 && 0 <= n / 64 % 64 < 64 && 0 <= n % 64 < 64
    ensures (n / 4096) * 4096 + (n / 64 % 64) * 64 + n % 64 == n
  {
    assert n / 64 == (n / 4096) * 64 + n / 64 % 64;
  }

  lemma Utf8FourBytes(n: int)
    requires 0x10000 <= n < 0x110000
    ensures 0xF0 <= 0xF0 + n / 262144 < 0xF8
    ensures 0 <= n / 4096 % 64 < 64 && 0 <= n / 64 % 64 < 64 && 0 <= n % 64 < 64
    ensures (n / 262144) * 262144 + (n / 4096 % 64) * 4096 + (n / 64 % 64) * 64 + n % 64 == n
  {
    assert n / 4096 == (n / 262144) * 64 + n / 4096 % 64;
    assert n / 64 == (n / 4096) * 64 + n / 64 % 64;
  }

  lemma Utf8RoundTripTwo(c: char)
    requires 0x80 <= c as int < 0x800
    ensures SequenceLength(Utf8(c)[0]) == |Utf8(c)| == 2
    ensures DecodeUtf8(Utf8(c)) == Some(c)
  {
    var n := c as int;
    Utf8TwoBytes(n);
    assert Utf8(c) == [0xC0 + n / 64, 0x80 + n % 64];
  }

  lemma Utf8RoundTripThree(c: char)
    requires 0x800 <= c as int < 0x10000
    ensures SequenceLength(Utf8(c)[0]) == |Utf8(c)| == 3
    ensures DecodeUtf8(Utf8(c)) == Some(c)
  {
    var n := c as int;
    Utf8ThreeBytes(n);
    assert Utf8(c) == [0xE0 + n / 4096, 0x80 + n / 64 % 64, 0x80 + n % 64];
  }

  lemma Utf8RoundTripFour(c: char)
    requires 0x10000 <= c as int
    ensures SequenceLength(Utf8(c)[0]) == |Utf8(c)| == 4
    ensures DecodeUtf8(Utf8(c)) == Some(c)
  {
    var n := c as int;
    Utf8FourBytes(n);
    assert Utf8(c) == [0xF0 + n / 262144, 0x80 + n / 4096 % 64, 0x80 + n / 64 % 64, 0x80 + n % 64];
  }

  /** UTF-8 decoding inverts UTF-8 encoding, and the leading byte announces the length. */
  lemma Utf8RoundTrip(c: char)
    ensures SequenceLength(Utf8(c)[0]) == |Utf8(c)|
    ensures DecodeUtf8(Utf8(c)) == Some(c)
  {
    var n := c as int;
    if n < 0x80 {
    } else if n < 0x800 {
      Utf8RoundTripTwo(c);
    } else if n < 0x10000 {
      Utf8RoundTripThree(c);
    } else {
      Utf8RoundTripFour(c);
    }
  }

  /** Decoding an encoded character followed by anything decodes the character, then the rest. */
  lemma DecodeEncodedChar(c: char, rest: string)
    ensures Decode(EncodeChar(c) + rest) ==
      match Decode(rest)
      case None => None
      case Some(r) => Some([c] + r)
  {
    var t := EncodeChar(c) + rest;
    if IsUnreserved(c) {
      assert t[1..] == rest;
    } else {
      var bs := Utf8(c);
      assert t == EscapeBytes(bs) + rest;
      ReadEscapedBytes(bs, rest);
      Utf8RoundTrip(c);
      assert ReadByte(t) == Some(bs[0]) by {
        match ReadBytes(t, |bs|) {
          case Some(r) => assert r == bs;
        }
      }
      assert t[3 * |bs|..] == rest;
    }
  }

  /** `decodeURIComponent(encodeURIComponent(s)) == s`: the encoder loses nothing. */
  lemma {:induction false} DecodeEncode(s: string)
    ensures Decode(Encode(s)) == Some(s)
  {
    if s != [] {
      DecodeEncode(s[1..]);
      DecodeEncodedChar(s[0], Encode(s[1..]));
      assert [s[0]] + s[1..] == s;
    }
  }

  /** Different segments encode differently. */
  lemma EncodeInjective(s: string, s': string)
    requires Encode(s) == Encode(s')
    ensures s == s'
  {
    DecodeEncode(s);
    DecodeEncode(s');
  }

  /** A segment made of unreserved characters only is left unchanged. */
  lemma {:induction false} EncodeUnreserved(s: string)
    requires forall i :: 0 <= i < |s| ==> IsUnreserved(s[i])
    ensures Encode(s) == s
  {
    if s != [] {
      EncodeUnreserved(s[1..]);
      assert [s[0]] + s[1..] == s;
    }
  }
}
