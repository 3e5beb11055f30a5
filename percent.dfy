/**
 * ECMAScript's `encodeURIComponent` and `decodeURIComponent` (section 19.2.6
 * of ECMA-262): percent-encoding of the UTF-8 bytes of every character
 * outside the unreserved set, as RFC 3986 section 2.1 describes, and its
 * inverse, which fails (throws `URIError`) on a malformed escape or on bytes
 * that are not the UTF-8 encoding of one code point.
 */
module Percent {
  import opened Wrappers

  type Byte = b: int | 0 <= b < 256

  /** The characters `encodeURIComponent` leaves as they are. */
  predicate Unreserved(c: char) {
    ('A' <= c <= 'Z') || ('a' <= c <= 'z') || ('0' <= c <= '9') || c in "-_.!~*'()"
  }

  /** The UTF-8 encoding of one code point. */
  function Utf8(c: char): (bs: seq<Byte>)
    ensures 1 <= |bs| <= 4
  {
    var v := c as int;
    if v < 0x80 then [v]
    else if v < 0x800 then [0xC0 + v / 64, 0x80 + v % 64]
    else if v < 0x10000 then [0xE0 + v / 4096, 0x80 + (v / 64) % 64, 0x80 + v % 64]
    else [0xF0 + v / 262144, 0x80 + (v / 4096) % 64, 0x80 + (v / 64) % 64, 0x80 + v % 64]
  }

  const HexDigits: string := "0123456789ABCDEF"

  /** The value of a hexadecimal digit of either case. */
  function HexValue(c: char): Option<nat> {
    if '0' <= c <= '9' then Some(c as int - '0' as int)
    else if 'A' <= c <= 'F' then Some(c as int - 'A' as int + 10)
    else if 'a' <= c <= 'f' then Some(c as int - 'a' as int + 10)
    else None
  }

  /** `%XY` for one byte, with upper-case hexadecimal digits. */
  function Escape(b: Byte): string {
    ['%', HexDigits[b / 16], HexDigits[b % 16]]
  }

  function EscapeAll(bs: seq<Byte>): (r: string)
    ensures |r| == 3 * |bs|
    ensures forall k :: 0 <= k < |r| ==> Unreserved(r[k]) || r[k] == '%'
  {
    if bs == [] then [] else Escape(bs[0]) + EscapeAll(bs[1..])
  }

  function EncodeChar(c: char): string {
    if Unreserved(c) then [c] else EscapeAll(Utf8(c))
  }

  /**
   * `encodeURIComponent(s)`. Every character of the encoding is unreserved
   * or starts an escape, so it carries no `&`, `=`, `+`, `#` or space, and
   * a string of unreserved characters is its own encoding.
   */
  function EncodeURIComponent(s: string): (r: string)
    ensures forall k :: 0 <= k < |r| ==> Unreserved(r[k]) || r[k] == '%'
    ensures (forall k :: 0 <= k < |s| ==> Unreserved(s[k])) ==> r == s
  {
    if s == [] then []
    else
      var rest := EncodeURIComponent(s[1..]);
      assert (forall k :: 0 <= k < |s| ==> Unreserved(s[k])) ==> forall k :: 0 <= k < |s[1..]| ==> Unreserved(s[1..][k]);
      EncodeChar(s[0]) + rest
  }

  /** The byte an escape `%XY` at the start of `s` stands for, if `s` starts with one. */
  function EscapedByte(s: string): Option<Byte> {
    if |s| >= 3 && s[0] == '%' && HexValue(s[1]).Some? && HexValue(s[2]).Some?
    then Some(HexValue(s[1]).value * 16 + HexValue(s[2]).value)
    else None
  }

  /** The length of the UTF-8 sequence a lead byte starts; 0 when `b` cannot start one. */
  function LeadLength(b: Byte): nat {
    if b < 0x80 then 1
    else if b < 0xC0 then 0
    else if b < 0xE0 then 2
    else if b < 0xF0 then 3
    else if b < 0xF8 then 4
    else 0
  }

  /** `n` escapes at the start of `s`, each standing for a continuation byte `10xxxxxx`. */
  function Continuations(s: string, n: nat): (r: Option<seq<Byte>>)
    decreases n
    ensures r.Some? ==> |r.value| == n && 3 * n <= |s|
  {
    if n == 0 then Some([])
    else match EscapedByte(s)
      case None => None
      case Some(b) =>
        if b < 0x80 || 0xC0 <= b then None
        else match Continuations(s[3..], n - 1)
          case None => None
          case Some(cs) => Some([b] + cs)
  }

  /** The code point a lead byte and its continuation bytes encode, unless overlong, a surrogate or too large. */
  function CodePoint(b: Byte, cs: seq<Byte>): Option<char>
    requires forall k :: 0 <= k < |cs| ==> 0x80 <= cs[k] < 0xC0
  {
    var lead: int := b;
    if |cs| == 1 && 0xC0 <= lead < 0xE0 then
      var v := (lead - 0xC0) * 64 + Low(cs[0]);
      if v < 0x80 then None else Some(v as char)
    else if |cs| == 2 && 0xE0 <= lead < 0xF0 then
      var v := (lead - 0xE0) * 4096 + Low(cs[0]) * 64 + Low(cs[1]);
      if v < 0x800 || (0xD800 <= v < 0xE000) then None else Some(v as char)
    else if |cs| == 3 && 0xF0 <= lead < 0xF8 then
      var v := (lead - 0xF0) * 262144 + Low(cs[0]) * 4096 + Low(cs[1]) * 64 + Low(cs[2]);
      if v < 0x10000 || 0x110000 <= v then None else Some(v as char)
    else None
  }

  /** The six payload bits of a continuation byte. */
  function Low(b: Byte): int {
    b as int - 0x80
  }

  /** `decodeURIComponent(s)`; `None` where it throws `URIError`. Decoding never lengthens the text. */
  function DecodeURIComponent(s: string): (r: Option<string>)
    decreases |s|
    ensures r.Some? ==> |r.value| <= |s|
  {
    if s == [] then Some([])
    else if s[0] != '%' then
      match DecodeURIComponent(s[1..])
      case None => None
      case Some(t) => Some([s[0]] + t)
    else match EscapedByte(s)
      case None => None
      case Some(b) =>
        var n := LeadLength(b);
        if n == 0 then None
        else if n == 1 then
          match DecodeURIComponent(s[3..])
          case None => None
          case Some(t) => Some([b as char] + t)
        else match Continuations(s[3..], n - 1)
          case None => None
          case Some(cs) =>
            match CodePoint(b, cs)
            case None => None
            case Some(c) =>
              match DecodeURIComponent(s[3 * n..])
              case None => None
              case Some(t) => Some([c] + t)
  }

  lemma HexDigitValue(d: nat)
    requires d < 16
    ensures HexValue(HexDigits[d]) == Some(d)
  {
  }

  lemma EscapedByteOfEscape(b: Byte, t: string)
    ensures EscapedByte(Escape(b) + t) == Some(b)
  {
    HexDigitValue(b / 16);
    HexDigitValue(b % 16);
  }

  lemma {:induction false} ContinuationsOfEscapes(cs: seq<Byte>, t: string)
    requires forall k :: 0 <= k < |cs| ==> 0x80 <= cs[k] < 0xC0
    ensures Continuations(EscapeAll(cs) + t, |cs|) == Some(cs)
  {
    if cs != [] {
      var rest := EscapeAll(cs[1..]) + t;
      EscapeAllFront(cs, t);
      EscapedByteOfEscape(cs[0], rest);
      ContinuationsOfEscapes(cs[1..], t);
      ContinuationsStep(Escape(cs[0]) + rest, cs[0], cs[1..]);
      assert [cs[0]] + cs[1..] == cs;
    }
  }

  /** The escapes of a byte sequence start with the escape of its first byte. */
  lemma EscapeAllFront(bs: seq<Byte>, t: string)
    requires bs != []
    ensures EscapeAll(bs) + t == Escape(bs[0]) + (EscapeAll(bs[1..]) + t)
    ensures (Escape(bs[0]) + (EscapeAll(bs[1..]) + t))[3..] == EscapeAll(bs[1..]) + t
  {
  }

  /** One more continuation escape in front gives one more continuation byte. */
  lemma ContinuationsStep(s: string, b: Byte, cs: seq<Byte>)
    requires EscapedByte(s) == Some(b) && 0x80 <= b < 0xC0
    requires Continuations(s[3..], |cs|) == Some(cs)
    ensures Continuations(s, |cs| + 1) == Some([b] + cs)
  {
  }

  /** Decoding the UTF-8 bytes of a code point gives the code point back. */
  lemma CodePointOfUtf8(c: char)
    requires c as int >= 0x80
    ensures forall k :: 1 <= k < |Utf8(c)| ==> 0x80 <= Utf8(c)[k] < 0xC0
    ensures LeadLength(Utf8(c)[0]) == |Utf8(c)|
    ensures CodePoint(Utf8(c)[0], Utf8(c)[1..]) == Some(c)
  {
    var v := c as int;
    if v < 0x800 {
      TwoByteSplit(v);
    } else if v < 0x10000 {
      ThreeByteSplit(v);
    } else {
      FourByteSplit(v);
    }
  }

  lemma TwoByteSplit(v: int)
    requires 0x80 <= v < 0x800
    ensures 2 <= v / 64 < 32 && (v / 64) * 64 + v % 64 == v
  {
  }

  lemma ThreeByteSplit(v: int)
    requires 0x800 <= v < 0x10000
    ensures v / 4096 < 16 && (v / 4096) * 4096 + ((v / 64) % 64) * 64 + v % 64 == v
  {
    assert v / 64 == (v / 4096) * 64 + (v / 64) % 64;
  }

  lemma FourByteSplit(v: int)
    requires 0x10000 <= v < 0x110000
    ensures v / 262144 < 8
    ensures (v / 262144) * 262144 + ((v / 4096) % 64) * 4096 + ((v / 64) % 64) * 64 + v % 64 == v
  {
    assert v / 64 == (v / 4096) * 64 + (v / 64) % 64;
    assert v / 4096 == (v / 262144) * 64 + (v / 4096) % 64;
  }

  /** Decoding one encoded character, followed by anything, yields that character first. */
  lemma DecodeEncodeChar(c: char, t: string)
    ensures DecodeURIComponent(EncodeChar(c) + t) ==
            match DecodeURIComponent(t)
            case None => None
            case Some(r) => Some([c] + r)
  {
    var s := EncodeChar(c) + t;
    if Unreserved(c) {
      assert s[0] == c && s[1..] == t;
    } else if c as int < 0x80 {
      DecodeEscapedAscii(c, t);
    } else {
      DecodeEscapedMultiByte(c, t);
    }
  }

  lemma DecodeEscapedAscii(c: char, t: string)
    requires !Unreserved(c) && c as int < 0x80
    ensures DecodeURIComponent(EncodeChar(c) + t) ==
            match DecodeURIComponent(t)
            case None => None
            case Some(r) => Some([c] + r)
  {
    var s := EncodeChar(c) + t;
    assert EncodeChar(c) == Escape(c as int);
    EscapedByteOfEscape(c as int, t);
    assert s[0] == '%' && s[3..] == t;
  }

  lemma DecodeEscapedMultiByte(c: char, t: string)
    requires c as int >= 0x80
    ensures DecodeURIComponent(EncodeChar(c) + t) ==
            match DecodeURIComponent(t)
            case None => None
            case Some(r) => Some([c] + r)
  {
    CodePointOfUtf8(c);
    assert EncodeChar(c) == EscapeAll(Utf8(c));
    DecodeEscapes(Utf8(c), c, t);
  }

  /** The escapes of a well-formed multi-byte sequence decode to its code point. */
  lemma DecodeEscapes(bs: seq<Byte>, c: char, t: string)
    requires |bs| >= 2 && LeadLength(bs[0]) == |bs|
    requires forall k :: 1 <= k < |bs| ==> 0x80 <= bs[k] < 0xC0
    requires CodePoint(bs[0], bs[1..]) == Some(c)
    ensures DecodeURIComponent(EscapeAll(bs) + t) ==
            match DecodeURIComponent(t)
            case None => None
            case Some(r) => Some([c] + r)
  {
    var s := EscapeAll(bs) + t;
    var rest := EscapeAll(bs[1..]) + t;
    EscapeAllFront(bs, t);
    EscapedByteOfEscape(bs[0], rest);
    ContinuationsOfEscapes(bs[1..], t);
    assert s[3 * |bs|..] == t;
    DecodeMultiByteStep(s, bs[0], bs[1..], c);
  }

  /** One escaped multi-byte sequence at the front decodes to its code point, and decoding goes on after it. */
  lemma DecodeMultiByteStep(s: string, b: Byte, cs: seq<Byte>, c: char)
    requires |s| > 0 && s[0] == '%' && EscapedByte(s) == Some(b)
    requires LeadLength(b) == |cs| + 1 >= 2 && Continuations(s[3..], |cs|) == Some(cs)
    requires forall k :: 0 <= k < |cs| ==> 0x80 <= cs[k] < 0xC0
    requires CodePoint(b, cs) == Some(c)
    ensures 3 * (|cs| + 1) <= |s|
    ensures DecodeURIComponent(s) ==
            match DecodeURIComponent(s[3 * (|cs| + 1)..])
            case None => None
            case Some(r) => Some([c] + r)
  {
  }

  /** A text without `%` is its own decoding. */
  lemma {:induction false} DecodeWithoutEscapes(s: string)
    requires '%' !in s
    ensures DecodeURIComponent(s) == Some(s)
  {
    if s != [] {
      assert '%' !in s[1..];
      DecodeWithoutEscapes(s[1..]);
      assert [s[0]] + s[1..] == s;
    }
  }

  /** `decodeURIComponent(encodeURIComponent(s)) === s` for every string. */
  lemma {:induction false} DecodeEncode(s: string)
    ensures DecodeURIComponent(EncodeURIComponent(s)) == Some(s)
  {
    if s != [] {
      DecodeEncodeChar(s[0], EncodeURIComponent(s[1..]));
      DecodeEncode(s[1..]);
      assert [s[0]] + s[1..] == s;
    }
  }

}
