/**
 * ECMAScript's encodeURIComponent (section 18.2.6.5 of ECMA-262, 2015 edition) and the
 * decodeURIComponent that inverts it. The relay uses the encoder to pack a whole
 * redirect target into the single `url` query parameter of `/proxy`.
 *
 * A Dafny `char` is a Unicode scalar value, so the lone surrogates for which the
 * ECMAScript encoder throws a URIError cannot occur here.
 */
module UriComponent {
  import opened Wrappers

  /** The characters left as they are: uriAlpha, DecimalDigit and uriMark. */
  predicate IsUnescaped(c: char)
  {
    ('A' <= c <= 'Z') || ('a' <= c <= 'z') || ('0' <= c <= '9') ||
    c in {'-', '_', '.', '!', '~', '*', '\'', '(', ')'}
  }

  predicate IsByte(b: int)
  {
    0 <= b < 256
  }

  predicate AllBytes(bytes: seq<int>)
  {
    forall i :: 0 <= i < |bytes| ==> IsByte(bytes[i])
  }

  /** The upper-case hexadecimal digit of value `d`. */
  function HexDigit(d: int): (c: char)
    requires 0 <= d < 16
    ensures IsUnescaped(c)
  {
    if d < 10 then ('0' as int + d) as char else ('A' as int + d - 10) as char
  }

  /** The value of a hexadecimal digit of either case. */
  function HexValue(c: char): (r: Option<int>)
    ensures r.Some? ==> 0 <= r.value < 16
  {
    if '0' <= c <= '9' then Some(c as int - '0' as int)
    else if 'A' <= c <= 'F' then Some(c as int - 'A' as int + 10)
    else if 'a' <= c <= 'f' then Some(c as int - 'a' as int + 10)
    else None
  }

  lemma HexValueOfDigit(d: int)
    requires 0 <= d < 16
    ensures HexValue(HexDigit(d)) == Some(d)
  {
  }

  /** The escape `%XY` of one byte. */
  function EscapeByte(b: int): (e: string)
    requires IsByte(b)
    ensures |e| == 3 && e[0] == '%'
  {
    ['%', HexDigit(b / 16), HexDigit(b % 16)]
  }

  /** The UTF-8 encoding of one code point. */
  function Utf8(c: char): (bytes: seq<int>)
    ensures 1 <= |bytes| <= 4 && AllBytes(bytes)
  {
    var n := c as int;
    if n < 0x80 then [n]
    else if n < 0x800 then [0xC0 + n / 0x40, 0x80 + n % 0x40]
    else if n < 0x10000 then [0xE0 + n / 0x1000, 0x80 + (n / 0x40) % 0x40, 0x80 + n % 0x40]
    else [0xF0 + n / 0x40000, 0x80 + (n / 0x1000) % 0x40, 0x80 + (n / 0x40) % 0x40, 0x80 + n % 0x40]
  }

  function EscapeBytes(bytes: seq<int>): (e: string)
    requires AllBytes(bytes)
    ensures |e| == 3 * |bytes|
  {
    if bytes == [] then [] else EscapeByte(bytes[0]) + EscapeBytes(bytes[1..])
  }

  function EncodeChar(c: char): string
  {
    if IsUnescaped(c) then [c] else EscapeBytes(Utf8(c))
  }

  /**
   * encodeURIComponent. Every character of the result is an unescaped character or
   * the `%` of an escape.
   */
  function Encode(s: string): (r: string)
    ensures forall i :: 0 <= i < |r| ==> IsUnescaped(r[i]) || r[i] == '%'
  {
    if s == [] then []
    else
      EncodeCharAlphabet(s[0]);
      EncodeChar(s[0]) + Encode(s[1..])
  }

  // ---------- decoding ----------

  /** Reads one escape `%XY` at the front of `s`, giving the byte and what follows. */
  function ReadByte(s: string): (r: Option<(int, string)>)
    ensures r.Some? ==> |s| >= 3 && IsByte(r.value.0) && r.value.1 == s[3..]
  {
    if |s| < 3 || s[0] != '%' then None
    else match (HexValue(s[1]), HexValue(s[2]))
      case (Some(hi), Some(lo)) => Some((16 * hi + lo, s[3..]))
      case _ => None
  }

  /** Reads one escaped UTF-8 continuation byte 10xxxxxx and gives its six payload bits. */
  function ReadContinuation(s: string): (r: Option<(int, string)>)
    ensures r.Some? ==> |s| >= 3 && 0 <= r.value.0 < 0x40 && r.value.1 == s[3..]
  {
    match ReadByte(s)
    case Some((b, t)) => if 0x80 <= b < 0xC0 then Some((b - 0x80, t)) else None
    case None => None
  }

  /**
   * Reads the escapes of one UTF-8 encoded code point at the front of `s`. Overlong
   * forms, surrogates and values beyond U+10FFFF are refused, as decodeURIComponent
   * refuses them with a URIError.
   */
  function ReadChar(s: string): (r: Option<(char, string)>)
    ensures r.Some? ==> |r.value.1| < |s|
  {
    match ReadByte(s)
    case None => None
    case Some((b0, t0)) =>
      if b0 < 0x80 then Some((b0 as char, t0))
      else if 0xC0 <= b0 < 0xE0 then
        match ReadContinuation(t0)
        case None => None
        case Some((x1, t1)) =>
          var n := (b0 - 0xC0) * 0x40 + x1;
          if n < 0x80 then None else Some((n as char, t1))
      else if 0xE0 <= b0 < 0xF0 then
        match ReadContinuation(t0)
        case None => None
        case Some((x1, t1)) =>
          match ReadContinuation(t1)
          case None => None
          case Some((x2, t2)) =>
            var n := (b0 - 0xE0) * 0x1000 + x1 * 0x40 + x2;
            if n < 0x800 || (0xD800 <= n < 0xE000) then None else Some((n as char, t2))
      else if 0xF0 <= b0 < 0xF8 then
        match ReadContinuation(t0)
        case None => None
        case Some((x1, t1)) =>
          match ReadContinuation(t1)
          case None => None
          case Some((x2, t2)) =>
            match ReadContinuation(t2)
            case None => None
            case Some((x3, t3)) =>
              var n := (b0 - 0xF0) * 0x40000 + x1 * 0x1000 + x2 * 0x40 + x3;
              if n < 0x10000 || n >= 0x110000 then None else Some((n as char, t3))
      else None
  }

  /** decodeURIComponent: None where it would throw a URIError. */
  function Decode(s: string): Option<string>
    decreases |s|
  {
    if s == [] then Some([])
    else if s[0] != '%' then
      match Decode(s[1..])
      case None => None
      case Some(t) => Some([s[0]] + t)
    else
      match ReadChar(s)
      case None => None
      case Some((c, rest)) =>
        match Decode(rest)
        case None => None
        case Some(t) => Some([c] + t)
  }

  // ---------- properties ----------

  lemma ReadEscape(b: int, t: string)
    requires IsByte(b)
    ensures ReadByte(EscapeByte(b) + t) == Some((b, t))
  {
    var s := EscapeByte(b) + t;
    HexValueOfDigit(b / 16);
    HexValueOfDigit(b % 16);
    assert s[1] == HexDigit(b / 16) && s[2] == HexDigit(b % 16);
    assert s[3..] == t;
  }

  lemma ReadEscapedContinuation(x: int, t: string)
    requires 0 <= x < 0x40
    ensures ReadContinuation(EscapeByte(0x80 + x) + t) == Some((x, t))
  {
    ReadEscape(0x80 + x, t);
  }

  /** The escapes of a code point's UTF-8 bytes read back as that code point. */
  lemma ReadCharOfEscapes(c: char, rest: string)
    ensures ReadChar(EscapeBytes(Utf8(c)) + rest) == Some((c, rest))
  {
    var n := c as int;
    if n < 0x80 {
      ReadOneByteChar(c, rest);
    } else if n < 0x800 {
      ReadTwoByteChar(c, rest);
    } else if n < 0x10000 {
      ReadThreeByteChar(c, rest);
    } else {
      ReadFourByteChar(c, rest);
    }
  }

  lemma ReadOneByteChar(c: char, rest: string)
    requires c as int < 0x80
    ensures ReadChar(EscapeBytes(Utf8(c)) + rest) == Some((c, rest))
  {
    var n := c as int;
    assert EscapeBytes(Utf8(c)) + rest == EscapeByte(n) + rest;
    ReadEscape(n, rest);
  }

  lemma Utf8Two(c: char)
    requires 0x80 <= c as int < 0x800
    ensures Utf8(c) == [0xC0 + (c as int) / 0x40, 0x80 + (c as int) % 0x40]
  {
  }

  lemma Utf8Three(c: char)
    requires 0x800 <= c as int < 0x10000
    ensures var n := c as int; Utf8(c) == [0xE0 + n / 0x1000, 0x80 + (n / 0x40) % 0x40, 0x80 + n % 0x40]
  {
  }

  lemma Utf8Four(c: char)
    requires 0x10000 <= c as int
    ensures var n := c as int;
      Utf8(c) == [0xF0 + n / 0x40000, 0x80 + (n / 0x1000) % 0x40, 0x80 + (n / 0x40) % 0x40, 0x80 + n % 0x40]
  {
  }

  lemma ReadTwoByteChar(c: char, rest: string)
    requires 0x80 <= c as int < 0x800
    ensures ReadChar(EscapeBytes(Utf8(c)) + rest) == Some((c, rest))
  {
    var n := c as int;
    TwoByteParts(n);
    Utf8Two(c);
    ReadTwoBytes(Utf8(c), 0xC0 + n / 0x40, n % 0x40, rest);
  }

  lemma ReadTwoBytes(bs: seq<int>, b0: int, x1: int, rest: string)
    requires bs == [b0, 0x80 + x1]
    requires 0xC0 <= b0 < 0xE0 && 0 <= x1 < 0x40
    requires 0x80 <= (b0 - 0xC0) * 0x40 + x1
    ensures AllBytes(bs)
    ensures ReadChar(EscapeBytes(bs) + rest) == Some((((b0 - 0xC0) * 0x40 + x1) as char, rest))
  {
    EscapeTwo(bs, rest);
    ReadTwoEscapes(b0, x1, rest);
  }

  /** The lead byte of a two-byte sequence and how the payload bits make up the code point. */
  lemma TwoByteParts(n: int)
    requires 0x80 <= n < 0x800
    ensures 2 <= n / 0x40 < 0x20 && 0 <= n % 0x40 < 0x40
    ensures (n / 0x40) * 0x40 + n % 0x40 == n
  {
  }

  /** The escapes of a two-byte sequence read back as the code point its payload bits make up. */
  lemma ReadTwoEscapes(b0: int, x1: int, rest: string)
    requires 0xC0 <= b0 < 0xE0 && 0 <= x1 < 0x40
    requires 0x80 <= (b0 - 0xC0) * 0x40 + x1
    ensures ReadChar(EscapeByte(b0) + (EscapeByte(0x80 + x1) + rest)) ==
      Some((((b0 - 0xC0) * 0x40 + x1) as char, rest))
  {
    var t1 := EscapeByte(0x80 + x1) + rest;
    ReadEscape(b0, t1);
    ReadEscapedContinuation(x1, rest);
  }

  lemma EscapeTwo(bs: seq<int>, rest: string)
    requires |bs| == 2 && AllBytes(bs)
    ensures EscapeBytes(bs) + rest == EscapeByte(bs[0]) + (EscapeByte(bs[1]) + rest)
  {
    assert bs[1..][1..] == [];
    assert EscapeBytes(bs[1..]) == EscapeByte(bs[1]);
  }

  lemma ReadThreeByteChar(c: char, rest: string)
    requires 0x800 <= c as int < 0x10000
    ensures ReadChar(EscapeBytes(Utf8(c)) + rest) == Some((c, rest))
  {
    var n := c as int;
    ThreeByteParts(n);
    Utf8Three(c);
    ReadThreeBytes(Utf8(c), 0xE0 + n / 0x1000, (n / 0x40) % 0x40, n % 0x40, rest);
  }

  lemma ReadThreeBytes(bs: seq<int>, b0: int, x1: int, x2: int, rest: string)
    requires bs == [b0, 0x80 + x1, 0x80 + x2]
    requires 0xE0 <= b0 < 0xF0 && 0 <= x1 < 0x40 && 0 <= x2 < 0x40
    requires 0x800 <= (b0 - 0xE0) * 0x1000 + x1 * 0x40 + x2
    requires !(0xD800 <= (b0 - 0xE0) * 0x1000 + x1 * 0x40 + x2 < 0xE000)
    ensures AllBytes(bs)
    ensures ReadChar(EscapeBytes(bs) + rest) == Some((((b0 - 0xE0) * 0x1000 + x1 * 0x40 + x2) as char, rest))
  {
    EscapeThree(bs, rest);
    ReadThreeEscapes(b0, x1, x2, rest);
  }

  /** The escapes of a three-byte sequence read back as the code point its payload bits make up. */
  lemma ReadThreeEscapes(b0: int, x1: int, x2: int, rest: string)
    requires 0xE0 <= b0 < 0xF0 && 0 <= x1 < 0x40 && 0 <= x2 < 0x40
    requires 0x800 <= (b0 - 0xE0) * 0x1000 + x1 * 0x40 + x2
    requires !(0xD800 <= (b0 - 0xE0) * 0x1000 + x1 * 0x40 + x2 < 0xE000)
    ensures ReadChar(EscapeByte(b0) + (EscapeByte(0x80 + x1) + (EscapeByte(0x80 + x2) + rest))) ==
      Some((((b0 - 0xE0) * 0x1000 + x1 * 0x40 + x2) as char, rest))
  {
    var t2 := EscapeByte(0x80 + x2) + rest;
    var t1 := EscapeByte(0x80 + x1) + t2;
    ReadEscape(b0, t1);
    ReadEscapedContinuation(x1, t2);
    ReadEscapedContinuation(x2, rest);
    ReadThreeByteLead(EscapeByte(b0) + t1, b0, t1, x1, t2, x2, rest);
  }

  lemma EscapeThree(bs: seq<int>, rest: string)
    requires |bs| == 3 && AllBytes(bs)
    ensures EscapeBytes(bs) + rest == EscapeByte(bs[0]) + (EscapeByte(bs[1]) + (EscapeByte(bs[2]) + rest))
  {
    assert bs[2..][1..] == [];
    assert bs[1..][1..] == bs[2..];
    assert EscapeBytes(bs[2..]) == EscapeByte(bs[2]);
    assert EscapeBytes(bs[1..]) == EscapeByte(bs[1]) + EscapeBytes(bs[2..]);
  }

  /** How ReadChar combines a three-byte sequence whose escapes have been read. */
  lemma ReadThreeByteLead(s: string, b0: int, t0: string, x1: int, t1: string, x2: int, t2: string)
    requires ReadByte(s) == Some((b0, t0)) && 0xE0 <= b0 < 0xF0
    requires ReadContinuation(t0) == Some((x1, t1))
    requires ReadContinuation(t1) == Some((x2, t2))
    requires 0x800 <= (b0 - 0xE0) * 0x1000 + x1 * 0x40 + x2
    requires !(0xD800 <= (b0 - 0xE0) * 0x1000 + x1 * 0x40 + x2 < 0xE000)
    ensures ReadChar(s) == Some((((b0 - 0xE0) * 0x1000 + x1 * 0x40 + x2) as char, t2))
  {
  }

  /** The lead byte of a three-byte sequence and how the payload bits make up the code point. */
  lemma ThreeByteParts(n: int)
    requires 0x800 <= n < 0x10000
    ensures 0 <= n / 0x1000 < 16
    ensures 0 <= (n / 0x40) % 0x40 < 0x40 && 0 <= n % 0x40 < 0x40
    ensures (n / 0x1000) * 0x1000 + ((n / 0x40) % 0x40) * 0x40 + n % 0x40 == n
  {
    ThreeBytes(n);
  }

  lemma ReadFourByteChar(c: char, rest: string)
    requires 0x10000 <= c as int
    ensures ReadChar(EscapeBytes(Utf8(c)) + rest) == Some((c, rest))
  {
    var n := c as int;
    FourByteParts(n);
    Utf8Four(c);
    ReadFourBytes(Utf8(c), 0xF0 + n / 0x40000, (n / 0x1000) % 0x40, (n / 0x40) % 0x40, n % 0x40, rest);
  }

  lemma ReadFourBytes(bs: seq<int>, b0: int, x1: int, x2: int, x3: int, rest: string)
    requires bs == [b0, 0x80 + x1, 0x80 + x2, 0x80 + x3]
    requires 0xF0 <= b0 < 0xF8 && 0 <= x1 < 0x40 && 0 <= x2 < 0x40 && 0 <= x3 < 0x40
    requires 0x10000 <= (b0 - 0xF0) * 0x40000 + x1 * 0x1000 + x2 * 0x40 + x3 < 0x110000
    ensures AllBytes(bs)
    ensures ReadChar(EscapeBytes(bs) + rest) ==
      Some((((b0 - 0xF0) * 0x40000 + x1 * 0x1000 + x2 * 0x40 + x3) as char, rest))
  {
    EscapeFour(bs, rest);
    ReadFourEscapes(b0, x1, x2, x3, rest);
  }

  /** The escapes of a four-byte sequence read back as the code point its payload bits make up. */
  lemma ReadFourEscapes(b0: int, x1: int, x2: int, x3: int, rest: string)
    requires 0xF0 <= b0 < 0xF8 && 0 <= x1 < 0x40 && 0 <= x2 < 0x40 && 0 <= x3 < 0x40
    requires 0x10000 <= (b0 - 0xF0) * 0x40000 + x1 * 0x1000 + x2 * 0x40 + x3 < 0x110000
    ensures ReadChar(EscapeByte(b0) + (EscapeByte(0x80 + x1) + (EscapeByte(0x80 + x2) + (EscapeByte(0x80 + x3) + rest)))) ==
      Some((((b0 - 0xF0) * 0x40000 + x1 * 0x1000 + x2 * 0x40 + x3) as char, rest))
  {
    var t3 := EscapeByte(0x80 + x3) + rest;
    var t2 := EscapeByte(0x80 + x2) + t3;
    var t1 := EscapeByte(0x80 + x1) + t2;
    ReadEscape(b0, t1);
    ReadEscapedContinuation(x1, t2);
    ReadEscapedContinuation(x2, t3);
    ReadEscapedContinuation(x3, rest);
    ReadFourByteLead(EscapeByte(b0) + t1, b0, t1, x1, t2, x2, t3, x3, rest);
  }

  lemma EscapeFour(bs: seq<int>, rest: string)
    requires |bs| == 4 && AllBytes(bs)
    ensures EscapeBytes(bs) + rest ==
      EscapeByte(bs[0]) + (EscapeByte(bs[1]) + (EscapeByte(bs[2]) + (EscapeByte(bs[3]) + rest)))
  {
    assert bs[3..][1..] == [];
    assert bs[2..][1..] == bs[3..];
    assert bs[1..][1..] == bs[2..];
    assert EscapeBytes(bs[3..]) == EscapeByte(bs[3]);
    assert EscapeBytes(bs[2..]) == EscapeByte(bs[2]) + EscapeBytes(bs[3..]);
    assert EscapeBytes(bs[1..]) == EscapeByte(bs[1]) + EscapeBytes(bs[2..]);
  }

  /** The lead byte of a four-byte sequence and how the payload bits make up the code point. */
  lemma FourByteParts(n: int)
    requires 0x10000 <= n < 0x110000
    ensures 0 <= n / 0x40000 < 8
    ensures 0 <= (n / 0x1000) % 0x40 < 0x40 && 0 <= (n / 0x40) % 0x40 < 0x40 && 0 <= n % 0x40 < 0x40
    ensures (n / 0x40000) * 0x40000 + ((n / 0x1000) % 0x40) * 0x1000 + ((n / 0x40) % 0x40) * 0x40 + n % 0x40 == n
  {
    FourBytes(n);
  }

  /** How ReadChar combines a four-byte sequence whose escapes have been read. */
  lemma ReadFourByteLead(s: string, b0: int, t0: string, x1: int, t1: string, x2: int, t2: string, x3: int, t3: string)
    requires ReadByte(s) == Some((b0, t0)) && 0xF0 <= b0 < 0xF8
    requires ReadContinuation(t0) == Some((x1, t1))
    requires ReadContinuation(t1) == Some((x2, t2))
    requires ReadContinuation(t2) == Some((x3, t3))
    requires 0x10000 <= (b0 - 0xF0) * 0x40000 + x1 * 0x1000 + x2 * 0x40 + x3 < 0x110000
    ensures ReadChar(s) == Some((((b0 - 0xF0) * 0x40000 + x1 * 0x1000 + x2 * 0x40 + x3) as char, t3))
  {
  }

  lemma ThreeBytes(n: nat)
    ensures (n / 0x1000) * 0x1000 + ((n / 0x40) % 0x40) * 0x40 + n % 0x40 == n
  {
    var q := n / 0x40;
    assert n == q * 0x40 + n % 0x40;
    assert q == (q / 0x40) * 0x40 + q % 0x40;
    assert q / 0x40 == n / 0x1000;
  }

  lemma FourBytes(n: nat)
    ensures (n / 0x40000) * 0x40000 + ((n / 0x1000) % 0x40) * 0x1000 + ((n / 0x40) % 0x40) * 0x40 + n % 0x40 == n
  {
    var q := n / 0x1000;
    assert q == (q / 0x40) * 0x40 + q % 0x40;
    assert q / 0x40 == n / 0x40000;
    ThreeBytes(n);
  }

  lemma DecodeEncodedChar(c: char, rest: string)
    ensures Decode(EncodeChar(c) + rest) ==
      match Decode(rest)
      case None => None
      case Some(t) => Some([c] + t)
  {
    var s := EncodeChar(c) + rest;
    if IsUnescaped(c) {
      assert s[0] == c && s[1..] == rest;
    } else {
      ReadCharOfEscapes(c, rest);
      assert s[0] == '%';
    }
  }

  /** decodeURIComponent inverts encodeURIComponent on every string. */
  lemma {:induction false} DecodeEncode(s: string)
    ensures Decode(Encode(s)) == Some(s)
  {
    if s != [] {
      DecodeEncode(s[1..]);
      DecodeEncodedChar(s[0], Encode(s[1..]));
      assert [s[0]] + s[1..] == s;
    }
  }

  lemma EncodeCharAlphabet(c: char)
    ensures forall i :: 0 <= i < |EncodeChar(c)| ==> IsUnescaped(EncodeChar(c)[i]) || EncodeChar(c)[i] == '%'
  {
    if !IsUnescaped(c) {
      EscapeBytesAlphabet(Utf8(c));
    }
  }

  lemma {:induction false} EscapeBytesAlphabet(bytes: seq<int>)
    requires AllBytes(bytes)
    ensures forall i :: 0 <= i < |EscapeBytes(bytes)| ==> IsUnescaped(EscapeBytes(bytes)[i]) || EscapeBytes(bytes)[i] == '%'
  {
    if bytes != [] {
      EscapeBytesAlphabet(bytes[1..]);
    }
  }

  /**
   * An encoded component holds none of the characters that delimit URL parts or query
   * parameters, nor `+` (which query parsers read as a space).
   */
  lemma EncodeHasNoDelimiters(s: string)
    ensures forall i :: 0 <= i < |Encode(s)| ==> Encode(s)[i] !in {':', '/', '?', '&', '=', '#', '+', ' '}
  {
  }

  /** A string made only of unescaped characters is its own encoding. */
  lemma {:induction false} EncodeUnescaped(s: string)
    requires forall i :: 0 <= i < |s| ==> IsUnescaped(s[i])
    ensures Encode(s) == s
  {
    if s != [] {
      EncodeUnescaped(s[1..]);
      assert [s[0]] + s[1..] == s;
    }
  }

  /** Encoding works character by character, so it distributes over concatenation. */
  lemma {:induction false} EncodeConcat(a: string, b: string)
    ensures Encode(a + b) == Encode(a) + Encode(b)
  {
    if a != [] {
      var ab := a + b;
      assert ab != [] && ab[0] == a[0] && ab[1..] == a[1..] + b;
      EncodeConcat(a[1..], b);
      calc {
        Encode(ab);
        EncodeChar(a[0]) + Encode(a[1..] + b);
        EncodeChar(a[0]) + (Encode(a[1..]) + Encode(b));
        (EncodeChar(a[0]) + Encode(a[1..])) + Encode(b);
      }
    } else {
      assert a + b == b;
    }
  }
}
