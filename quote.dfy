/**
 * `urllib.parse.quote(s, safe="")`, the escaping `Settings._q` applies to the database
 * credentials: the text is encoded as UTF-8 and every byte outside the unreserved set of
 * section 2.3 of RFC 3986 (letters, digits and `_.-~`) becomes `%XX`, with upper-case hex
 * digits (section 2.1 of RFC 3986).
 */
module UrlQuote {
  import opened Wrappers

  type Byte = b: int | 0 <= b < 256

  // ---------------------------------------------------------------- UTF-8

  /** The UTF-8 encoding of one Unicode scalar value (RFC 3629, section 3). */
  function EncodeChar(c: char): (r: seq<Byte>)
    ensures 1 <= |r| <= 4
    ensures c as int < 0x80 ==> r == [c as int]
  {
    var cp := c as int;
    if cp < 0x80 then [cp]
    else if cp < 0x800 then [0xC0 + cp / 0x40, 0x80 + cp % 0x40]
    else if cp < 0x10000 then [0xE0 + cp / 0x1000, 0x80 + (cp / 0x40) % 0x40, 0x80 + cp % 0x40]
    else [0xF0 + cp / 0x40000, 0x80 + (cp / 0x1000) % 0x40, 0x80 + (cp / 0x40) % 0x40, 0x80 + cp % 0x40]
  }

  /** `s.encode("utf-8")`. */
  function Utf8(s: string): (r: seq<Byte>)
    ensures |s| <= |r| <= 4 * |s|
  {
    if s == [] then [] else EncodeChar(s[0]) + Utf8(s[1..])
  }

  /** Reads one character off the front of UTF-8 bytes: the character and how many bytes it took. */
  function DecodeChar(bs: seq<Byte>): (r: Option<(char, nat)>)
    ensures r.Some? ==> 1 <= r.value.1 <= |bs|
  {
    if bs == [] then None
    else if bs[0] < 0x80 then Some((bs[0] as char, 1))
    else if 0xC0 <= bs[0] < 0xE0 && |bs| >= 2 then
      var cp: int := (bs[0] as int - 0xC0) * 0x40 + (bs[1] as int - 0x80);
      if 0x80 <= bs[1] < 0xC0 && 0x80 <= cp then Some((cp as char, 2)) else None
    else if 0xE0 <= bs[0] < 0xF0 && |bs| >= 3 then
      var cp: int := (bs[0] as int - 0xE0) * 0x1000 + (bs[1] as int - 0x80) * 0x40 + (bs[2] as int - 0x80);
      if 0x80 <= bs[1] < 0xC0 && 0x80 <= bs[2] < 0xC0 && 0x800 <= cp && !(0xD800 <= cp < 0xE000)
      then Some((cp as char, 3)) else None
    else if 0xF0 <= bs[0] < 0xF5 && |bs| >= 4 then
      var cp: int := (bs[0] as int - 0xF0) * 0x40000 + (bs[1] as int - 0x80) * 0x1000 + (bs[2] as int - 0x80) * 0x40 + (bs[3] as int - 0x80);
      if 0x80 <= bs[1] < 0xC0 && 0x80 <= bs[2] < 0xC0 && 0x80 <= bs[3] < 0xC0 && 0x10000 <= cp < 0x110000
      then Some((cp as char, 4)) else None
    else None
  }

  /** `bs.decode("utf-8")`, `None` where the bytes are not UTF-8. */
  function Utf8Decode(bs: seq<Byte>): (r: Option<string>)
    decreases |bs|
  {
    if bs == [] then Some([])
    else match DecodeChar(bs)
      case None => None
      case Some((c, n)) =>
        match Utf8Decode(bs[n..])
        case None => None
        case Some(rest) => Some([c] + rest)
  }

  lemma DecodeEncodedChar(c: char, tail: seq<Byte>)
    ensures DecodeChar(EncodeChar(c) + tail) == Some((c, |EncodeChar(c)|))
  {
    var cp := c as int;
    if cp < 0x80 {
    } else if cp < 0x800 {
      DecodeTwoBytes(c, tail);
    } else if cp < 0x10000 {
      DecodeThreeBytes(c, tail);
    } else {
      DecodeFourBytes(c, tail);
    }
  }

  lemma DecodeTwoBytes(c: char, tail: seq<Byte>)
    requires 0x80 <= c as int < 0x800
    ensures DecodeChar(EncodeChar(c) + tail) == Some((c, 2))
  {
    var cp := c as int;
    var bs := EncodeChar(c) + tail;
    var a, b := cp / 0x40, cp % 0x40;
    assert cp == a * 0x40 + b;
    assert bs[0] == 0xC0 + a && bs[1] == 0x80 + b;
  }

  lemma DecodeThreeBytes(c: char, tail: seq<Byte>)
    requires 0x800 <= c as int < 0x10000
    ensures DecodeChar(EncodeChar(c) + tail) == Some((c, 3))
  {
    var cp := c as int;
    var bs := EncodeChar(c) + tail;
    var a, b, d := cp / 0x1000, (cp / 0x40) % 0x40, cp % 0x40;
    assert cp / 0x40 == a * 0x40 + b;
    assert cp == a * 0x1000 + b * 0x40 + d;
    assert bs[0] == 0xE0 + a && bs[1] == 0x80 + b && bs[2] == 0x80 + d;
  }

  lemma DecodeFourBytes(c: char, tail: seq<Byte>)
    requires 0x10000 <= c as int
    ensures DecodeChar(EncodeChar(c) + tail) == Some((c, 4))
  {
    var cp := c as int;
    var bs := EncodeChar(c) + tail;
    var a, b, d, e := cp / 0x40000, (cp / 0x1000) % 0x40, (cp / 0x40) % 0x40, cp % 0x40;
    assert cp / 0x1000 == a * 0x40 + b;
    assert cp / 0x40 == (cp / 0x1000) * 0x40 + d;
    assert cp == a * 0x40000 + b * 0x1000 + d * 0x40 + e;
    assert bs[0] == 0xF0 + a && bs[1] == 0x80 + b && bs[2] == 0x80 + d && bs[3] == 0x80 + e;
  }

  /** UTF-8 decoding undoes UTF-8 encoding, so the encoding loses nothing. */
  lemma {:induction false} Utf8RoundTrip(s: string)
    ensures Utf8Decode(Utf8(s)) == Some(s)
  {
    if s != [] {
      var e := EncodeChar(s[0]);
      DecodeEncodedChar(s[0], Utf8(s[1..]));
      assert (e + Utf8(s[1..]))[|e|..] == Utf8(s[1..]);
      Utf8RoundTrip(s[1..]);
      assert [s[0]] + s[1..] == s;
    }
  }

  // ---------------------------------------------------------------- percent-encoding

  /** The characters `quote` never escapes: `A-Z a-z 0-9 _ . - ~`. */
  predicate IsUnreserved(c: char)
  {
    'A' <= c <= 'Z' || 'a' <= c <= 'z' || '0' <= c <= '9' || c == '_' || c == '.' || c == '-' || c == '~'
  }

  predicate IsUpperHex(c: char)
  {
    '0' <= c <= '9' || 'A' <= c <= 'F'
  }

  /** Every character `quote` can produce: unreserved ones, `%`, and the hex digits after it. */
  predicate IsQuotedChar(c: char)
  {
    IsUnreserved(c) || c == '%'
  }

  function UpperHexDigit(n: int): (c: char)
    requires 0 <= n < 16
    ensures IsUpperHex(c)
  {
    "0123456789ABCDEF"[n]
  }

  function UpperHexValue(c: char): (r: Option<int>)
    ensures r.Some? <==> IsUpperHex(c)
    ensures r.Some? ==> 0 <= r.value < 16
  {
    if '0' <= c <= '9' then Some(c as int - '0' as int)
    else if 'A' <= c <= 'F' then Some(c as int - 'A' as int + 10)
    else None
  }

  /** One byte as `quote` writes it: the character itself when unreserved ASCII, else `%XX`. */
  function QuoteByte(b: Byte): (r: string)
    ensures |r| == 1 || |r| == 3
    ensures forall i | 0 <= i < |r| :: IsQuotedChar(r[i])
    ensures |r| == 1 <==> b < 0x80 && IsUnreserved(b as char)
    ensures |r| == 1 ==> r == [b as char]
    ensures |r| == 3 ==> r[0] == '%' && UpperHexValue(r[1]) == Some(b / 16) && UpperHexValue(r[2]) == Some(b % 16)
  {
    if b < 0x80 && IsUnreserved(b as char) then [b as char]
    else ['%', UpperHexDigit(b / 16), UpperHexDigit(b % 16)]
  }

  function QuoteBytes(bs: seq<Byte>): (r: string)
    ensures forall i | 0 <= i < |r| :: IsQuotedChar(r[i])
  {
    if bs == [] then [] else QuoteByte(bs[0]) + QuoteBytes(bs[1..])
  }

  /** `quote(s, safe="")`: the result consists only of unreserved characters and `%`
      escapes, so it never contains a delimiter of a URL's authority (`:`, `@`, `/`). */
  function Quote(s: string): (r: string)
    ensures forall i | 0 <= i < |r| :: IsQuotedChar(r[i])
    ensures ':' !in r && '@' !in r && '/' !in r
  {
    QuoteBytes(Utf8(s))
  }

  /** The inverse of `QuoteBytes`: reads text made of unreserved characters and upper-case
      `%XX` escapes back into bytes, and is `None` on any other text (which Python's
      `unquote_to_bytes` would pass through). */
  function Unquote(s: string): (r: Option<seq<Byte>>)
  {
    if s == [] then Some([])
    else if s[0] == '%' then
      if |s| >= 3 && UpperHexValue(s[1]).Some? && UpperHexValue(s[2]).Some? then
        match Unquote(s[3..])
        case None => None
        case Some(rest) => Some([UpperHexValue(s[1]).value * 16 + UpperHexValue(s[2]).value] + rest)
      else None
    else if s[0] as int < 0x80 then
      match Unquote(s[1..])
      case None => None
      case Some(rest) => Some([s[0] as int] + rest)
    else None
  }

  lemma UnquoteQuotedByte(b: Byte, tail: string)
    ensures Unquote(QuoteByte(b) + tail) ==
      match Unquote(tail) case None => None case Some(rest) => Some([b] + rest)
  {
    var q := QuoteByte(b);
    if |q| == 3 {
      assert (q + tail)[3..] == tail;
    } else {
      assert (q + tail)[1..] == tail;
    }
  }

  lemma {:induction false} UnquoteQuoteBytes(bs: seq<Byte>)
    ensures Unquote(QuoteBytes(bs)) == Some(bs)
  {
    if bs != [] {
      UnquoteQuotedByte(bs[0], QuoteBytes(bs[1..]));
      UnquoteQuoteBytes(bs[1..]);
      assert [bs[0]] + bs[1..] == bs;
    }
  }

  /** Percent-decoding the quoted text and then decoding it as UTF-8 gives back the original
      text: the escaping loses nothing. */
  lemma QuoteRoundTrip(s: string)
    ensures Unquote(Quote(s)).Some? && Utf8Decode(Unquote(Quote(s)).value) == Some(s)
  {
    UnquoteQuoteBytes(Utf8(s));
    Utf8RoundTrip(s);
  }

  /** Text made only of unreserved characters passes through `quote` unchanged. */
  lemma {:induction false} QuoteKeepsUnreserved(s: string)
    requires forall i | 0 <= i < |s| :: IsUnreserved(s[i])
    ensures Quote(s) == s
  {
    if s != [] {
      QuoteKeepsUnreserved(s[1..]);
      assert [s[0]] + s[1..] == s;
    }
  }
}
