/** `encodeURIComponent` as section 19.2.6.5 of ECMA-262 defines it, with the
    decoding direction (`decodeURIComponent`, section 19.2.6.3, which is what a
    static file server applies to a request path) as its partner. A Dafny
    `char` is a Unicode scalar value, so the lone-surrogate `URIError` of the
    encoder cannot arise. */
module UriComponent {
  import opened Wrappers

  type Byte = x: int | 0 <= x < 256

  /** The characters `encodeURIComponent` keeps: ASCII letters, decimal digits
      and the marks - _ . ! ~ * ' ( ) */
  predicate Unreserved(c: char) {
    || 'A' <= c <= 'Z'
    || 'a' <= c <= 'z'
    || '0' <= c <= '9'
    || c in "-_.!~*'()"
  }

  /** The UTF-8 octets of one scalar value (RFC 3629, section 3). */
  function Utf8(c: char): (r: seq<Byte>)
    ensures 1 <= |r| <= 4
    ensures |r| == 1 <==> c as int < 0x80
    ensures forall k | 1 <= k < |r| :: 0x80 <= r[k] < 0xC0
  {
    var cp := c as int;
    if cp < 0x80 then [cp]
    else if cp < 0x800 then [0xC0 + cp / 64, 0x80 + cp % 64]
    else if cp < 0x10000 then [0xE0 + cp / 4096, 0x80 + (cp / 64) % 64, 0x80 + cp % 64]
    else [0xF0 + cp / 262144, 0x80 + (cp / 4096) % 64, 0x80 + (cp / 64) % 64, 0x80 + cp % 64]
  }

  /** Upper-case hexadecimal digit of a value below 16. */
  function HexDigit(d: int): (c: char)
    requires 0 <= d < 16
    ensures Unreserved(c) && c != '%'
  {
    if d < 10 then ('0' as int + d) as char else ('A' as int + d - 10) as char
  }

  /** Value of a hexadecimal digit of either case, as `decodeURIComponent` reads it. */
  function HexValue(c: char): (r: Option<int>)
    ensures r.Some? ==> 0 <= r.value < 16
  {
    if '0' <= c <= '9' then Some(c as int - '0' as int)
    else if 'A' <= c <= 'F' then Some(c as int - 'A' as int + 10)
    else if 'a' <= c <= 'f' then Some(c as int - 'a' as int + 10)
    else None
  }

  lemma HexValueOfDigit(d: int)
    requires 0 <= d < 16
    ensures HexValue(HexDigit(d)) == Some(d)
  {
  }

  /** One octet written as `%XY`. */
  function Escape(b: Byte): (r: string)
    ensures |r| == 3 && r[0] == '%'
  {
    ['%', HexDigit(b / 16), HexDigit(b % 16)]
  }

  function EscapeAll(bs: seq<Byte>): (r: string)
    ensures |r| == 3 * |bs|
  {
    if bs == [] then [] else Escape(bs[0]) + EscapeAll(bs[1..])
  }

  /** Escapes are made of `%` and hexadecimal digits only. */
  lemma {:induction false} EscapeAllIsSafe(bs: seq<Byte>)
    ensures forall k | 0 <= k < |EscapeAll(bs)| :: Unreserved(EscapeAll(bs)[k]) || EscapeAll(bs)[k] == '%'
  {
    if bs != [] {
      EscapeAllIsSafe(bs[1..]);
    }
  }

  /** Encoding of one character: kept when unreserved, otherwise its UTF-8
      octets, each escaped. */
  function EncodeChar(c: char): (r: string)
    ensures Unreserved(c) ==> r == [c]
    ensures !Unreserved(c) ==> 3 <= |r| <= 12 && r[0] == '%'
    ensures forall k | 0 <= k < |r| :: Unreserved(r[k]) || r[k] == '%'
  {
    EscapeAllIsSafe(Utf8(c));
    if Unreserved(c) then [c] else EscapeAll(Utf8(c))
  }

  /** `encodeURIComponent(s)`. The result is made only of unreserved characters
      and `%` (so it holds no `/`, `?`, `#` or `:`), and a string of unreserved
      characters is its own encoding. */
  function Encode(s: string): (r: string)
    ensures |r| >= |s|
    ensures forall k | 0 <= k < |r| :: Unreserved(r[k]) || r[k] == '%'
    ensures (forall k | 0 <= k < |s| :: Unreserved(s[k])) ==> r == s
  {
    if s == [] then [] else EncodeChar(s[0]) + Encode(s[1..])
  }

  /** The octet written as `%XY` at offset `i` of `s`, if there is one. */
  function OctetAt(s: string, i: nat): (r: Option<Byte>)
    ensures r.Some? ==> i + 3 <= |s|
  {
    if i + 3 <= |s| && s[i] == '%' then
      match (HexValue(s[i + 1]), HexValue(s[i + 2]))
      case (Some(hi), Some(lo)) => Some(hi * 16 + lo)
      case _ => None
    else None
  }

  /** The six payload bits of the continuation octet written at offset `i`. */
  function ContinuationAt(s: string, i: nat): (r: Option<int>)
    ensures r.Some? ==> 0 <= r.value < 64 && i + 3 <= |s|
  {
    match OctetAt(s, i)
    case Some(b) => if 0x80 <= b < 0xC0 then Some(b - 0x80) else None
    case None => None
  }

  predicate IsScalarValue(cp: int) {
    0 <= cp < 0xD800 || 0xE000 <= cp < 0x110000
  }

  /** The scalar value `cp` if it lies at or above `least` (an encoding that is
      not the shortest is refused), paired with the length of text consumed. */
  function Accept(cp: int, least: int, length: nat): Option<(char, nat)>
  {
    if least <= cp && IsScalarValue(cp) then Some((cp as char, length)) else None
  }

  /** A two-octet sequence: lead payload and one continuation. */
  function DecodeTwo(s: string, b0: int): (r: Option<(char, nat)>)
    ensures r.Some? ==> r.value.1 == 6 <= |s|
  {
    match ContinuationAt(s, 3)
    case Some(b1) => Accept((b0 - 0xC0) * 64 + b1, 0x80, 6)
    case None => None
  }

  /** A three-octet sequence: lead payload and two continuations. */
  function DecodeThree(s: string, b0: int): (r: Option<(char, nat)>)
    ensures r.Some? ==> r.value.1 == 9 <= |s|
  {
    match (ContinuationAt(s, 3), ContinuationAt(s, 6))
    case (Some(b1), Some(b2)) => Accept(((b0 - 0xE0) * 64 + b1) * 64 + b2, 0x800, 9)
    case _ => None
  }

  /** A four-octet sequence: lead payload and three continuations. */
  function DecodeFour(s: string, b0: int): (r: Option<(char, nat)>)
    ensures r.Some? ==> r.value.1 == 12 <= |s|
  {
    match (ContinuationAt(s, 3), ContinuationAt(s, 6), ContinuationAt(s, 9))
    case (Some(b1), Some(b2), Some(b3)) =>
      Accept((((b0 - 0xF0) * 64 + b1) * 64 + b2) * 64 + b3, 0x10000, 12)
    case _ => None
  }

  /** Decodes the escaped UTF-8 sequence at the start of `s`, as
      `decodeURIComponent` does on meeting a `%`: the lead octet gives the
      length of the sequence. */
  function DecodeEscaped(s: string): (r: Option<(char, nat)>)
    ensures r.Some? ==> 3 <= r.value.1 <= |s|
  {
    match OctetAt(s, 0)
    case None => None
    case Some(b0) =>
      if b0 < 0x80 then Some((b0 as char, 3))
      else if 0xC0 <= b0 < 0xE0 then DecodeTwo(s, b0)
      else if 0xE0 <= b0 < 0xF0 then DecodeThree(s, b0)
      else if 0xF0 <= b0 < 0xF8 then DecodeFour(s, b0)
      else None
  }

  /** `decodeURIComponent(s)`, with `None` for the inputs on which it throws. */
  function Decode(s: string): (r: Option<string>)
    decreases |s|
  {
    if s == [] then Some([])
    else if s[0] != '%' then
      match Decode(s[1..])
      case Some(t) => Some([s[0]] + t)
      case None => None
    else
      match DecodeEscaped(s)
      case Some((c, n)) =>
        (match Decode(s[n..])
         case Some(t) => Some([c] + t)
         case None => None)
      case None => None
  }

  /** An escaped octet is read back from its escape. */
  lemma OctetAtEscape(b: Byte, rest: string)
    ensures OctetAt(Escape(b) + rest, 0) == Some(b)
  {
    var s := Escape(b) + rest;
    assert s[0] == '%' && s[1] == HexDigit(b / 16) && s[2] == HexDigit(b % 16);
    HexValueOfDigit(b / 16);
    HexValueOfDigit(b % 16);
  }

  /** The octet at position `k` of `bs` is read back from its escape. */
  lemma {:induction false} OctetAtEscaped(bs: seq<Byte>, rest: string, k: nat)
    requires k < |bs|
    ensures OctetAt(EscapeAll(bs) + rest, 3 * k) == Some(bs[k])
  {
    var tail := EscapeAll(bs[1..]) + rest;
    assert EscapeAll(bs) + rest == Escape(bs[0]) + tail;
    if k == 0 {
      OctetAtEscape(bs[0], tail);
    } else {
      OctetAtEscaped(bs[1..], rest, k - 1);
      OctetAtShift(Escape(bs[0]), tail, 3 * (k - 1));
    }
  }

  lemma OctetAtShift(p: string, s: string, i: nat)
    requires |p| == 3
    ensures OctetAt(p + s, i + 3) == OctetAt(s, i)
  {
    if i + 3 <= |s| {
      assert (p + s)[i + 3..i + 6] == s[i..i + 3];
    }
  }

  lemma DecodeOneOctet(s: string, c: char)
    requires c as int < 0x80
    requires OctetAt(s, 0) == Some(c as int)
    ensures DecodeEscaped(s) == Some((c, 3))
  {
  }

  lemma DecodeTwoOctets(s: string, c: char)
    requires 0x80 <= c as int < 0x800
    requires OctetAt(s, 0) == Some(0xC0 + c as int / 64)
    requires OctetAt(s, 3) == Some(0x80 + c as int % 64)
    ensures DecodeEscaped(s) == Some((c, 6))
  {
  }

  /** Dividing by 64 twice is dividing by 4096. */
  lemma DivideTwice(x: int)
    requires 0 <= x
    ensures x / 64 / 64 == x / 4096
  {
    var q, r := x / 4096, x % 4096;
    assert x == q * 4096 + r;
    assert x == (q * 64 + r / 64) * 64 + r % 64;
  }

  /** The six-bit groups of a value below 0x10000 rebuild it. */
  lemma ThreeGroups(cp: int)
    requires 0 <= cp
    ensures ((cp / 4096) * 64 + (cp / 64) % 64) * 64 + cp % 64 == cp
  {
    DivideTwice(cp);
  }

  /** The six-bit groups of any non-negative value rebuild it. */
  lemma FourGroups(cp: int)
    requires 0 <= cp
    ensures (((cp / 262144) * 64 + (cp / 4096) % 64) * 64 + (cp / 64) % 64) * 64 + cp % 64 == cp
  {
    DivideTwice(cp);
    DivideTwice(cp / 64);
    assert cp / 64 / 4096 == cp / 262144;
  }

  lemma DecodeThreeOctets(s: string, c: char)
    requires 0x800 <= c as int < 0x10000
    requires OctetAt(s, 0) == Some(0xE0 + c as int / 4096)
    requires OctetAt(s, 3) == Some(0x80 + (c as int / 64) % 64)
    requires OctetAt(s, 6) == Some(0x80 + c as int % 64)
    ensures DecodeEscaped(s) == Some((c, 9))
  {
    ThreeGroups(c as int);
    assert DecodeThree(s, 0xE0 + c as int / 4096) == Some((c, 9));
  }

  lemma DecodeFourOctets(s: string, c: char)
    requires 0x10000 <= c as int
    requires OctetAt(s, 0) == Some(0xF0 + c as int / 262144)
    requires OctetAt(s, 3) == Some(0x80 + (c as int / 4096) % 64)
    requires OctetAt(s, 6) == Some(0x80 + (c as int / 64) % 64)
    requires OctetAt(s, 9) == Some(0x80 + c as int % 64)
    ensures DecodeEscaped(s) == Some((c, 12))
  {
    FourGroups(c as int);
    assert DecodeFour(s, 0xF0 + c as int / 262144) == Some((c, 12));
  }

  lemma DecodeEscapedOne(c: char, rest: string)
    requires !Unreserved(c) && c as int < 0x80
    ensures DecodeEscaped(EncodeChar(c) + rest) == Some((c, 3))
  {
    var bs := Utf8(c);
    assert bs == [c as int];
    OctetAtEscaped(bs, rest, 0);
    DecodeOneOctet(EncodeChar(c) + rest, c);
  }

  lemma DecodeEscapedTwo(c: char, rest: string)
    requires 0x80 <= c as int < 0x800
    ensures DecodeEscaped(EncodeChar(c) + rest) == Some((c, 6))
  {
    var cp := c as int;
    var bs := Utf8(c);
    assert bs == [0xC0 + cp / 64, 0x80 + cp % 64];
    OctetAtEscaped(bs, rest, 0);
    OctetAtEscaped(bs, rest, 1);
    DecodeTwoOctets(EncodeChar(c) + rest, c);
  }

  lemma DecodeEscapedThree(c: char, rest: string)
    requires 0x800 <= c as int < 0x10000
    ensures DecodeEscaped(EncodeChar(c) + rest) == Some((c, 9))
  {
    var cp := c as int;
    var bs := Utf8(c);
    assert bs == [0xE0 + cp / 4096, 0x80 + (cp / 64) % 64, 0x80 + cp % 64];
    OctetAtEscaped(bs, rest, 0);
    OctetAtEscaped(bs, rest, 1);
    OctetAtEscaped(bs, rest, 2);
    DecodeThreeOctets(EncodeChar(c) + rest, c);
  }

  lemma DecodeEscapedFour(c: char, rest: string)
    requires 0x10000 <= c as int
    ensures DecodeEscaped(EncodeChar(c) + rest) == Some((c, 12))
  {
    var cp := c as int;
    var bs := Utf8(c);
    assert bs == [0xF0 + cp / 262144, 0x80 + (cp / 4096) % 64, 0x80 + (cp / 64) % 64, 0x80 + cp % 64];
    OctetAtEscaped(bs, rest, 0);
    OctetAtEscaped(bs, rest, 1);
    OctetAtEscaped(bs, rest, 2);
    OctetAtEscaped(bs, rest, 3);
    DecodeFourOctets(EncodeChar(c) + rest, c);
  }

  /** A character that is escaped decodes back from its escapes. */
  lemma DecodeEscapedChar(c: char, rest: string)
    requires !Unreserved(c)
    ensures DecodeEscaped(EncodeChar(c) + rest) == Some((c, |EncodeChar(c)|))
  {
    var cp := c as int;
    if cp < 0x80 {
      DecodeEscapedOne(c, rest);
    } else if cp < 0x800 {
      DecodeEscapedTwo(c, rest);
    } else if cp < 0x10000 {
      DecodeEscapedThree(c, rest);
    } else {
      DecodeEscapedFour(c, rest);
    }
  }

  /** Decoding a string that starts with the encoding of a character yields
      that character followed by the decoding of the rest. */
  lemma DecodeEncodedPrefix(c: char, tail: string, t: string)
    requires Decode(tail) == Some(t)
    ensures Decode(EncodeChar(c) + tail) == Some([c] + t)
  {
    var head := EncodeChar(c);
    var e := head + tail;
    if Unreserved(c) {
      assert e[1..] == tail;
    } else {
      DecodeEscapedChar(c, tail);
      assert e[0] == '%';
      assert e[|head|..] == tail;
    }
  }

  /** Round trip: decoding the encoding of any string gives the string back. */
  lemma {:induction false} DecodeEncode(s: string)
    ensures Decode(Encode(s)) == Some(s)
  {
    if s != [] {
      DecodeEncode(s[1..]);
      DecodeEncodedPrefix(s[0], Encode(s[1..]), s[1..]);
      assert [s[0]] + s[1..] == s;
    }
  }

  /** Two names with the same encoding are the same name. */
  lemma EncodeInjective(s: string, t: string)
    requires Encode(s) == Encode(t)
    ensures s == t
  {
    DecodeEncode(s);
    DecodeEncode(t);
  }
}
