/** `encodeURIComponent` and `decodeURIComponent`, as section 19.2.6 of
    ECMA-262 defines them: the link of an entry card percent-encodes the id
    (scripts.js:121) and `handleRouting` decodes it again (scripts.js:82).
    The decoder accepts escapes in either case, copies every other
    character, and fails with a `URIError` on a truncated or malformed escape
    and on any byte sequence that is not the UTF-8 form of one code point. */
module Uri {
  import opened Base

  type Byte = x: int | 0 <= x < 256

  /** The exception `decodeURIComponent` throws. */
  datatype UriError = UriError

  // ---------------------------------------------------------------------
  // UTF-8

  /** The UTF-8 bytes of one code point (RFC 3629). */
  function Utf8(c: char): (r: seq<Byte>)
    ensures 1 <= |r| <= 4
    ensures |r| == 1 <==> c as int < 0x80
  {
    var v := c as int;
    if v < 0x80 then [v]
    else if v < 0x800 then [0xC0 + v / 64, 0x80 + v % 64]
    else if v < 0x1_0000 then [0xE0 + v / 4096, 0x80 + v / 64 % 64, 0x80 + v % 64]
    else [0xF0 + v / 262144, 0x80 + v / 4096 % 64, 0x80 + v / 64 % 64, 0x80 + v % 64]
  }

  /** The length of the UTF-8 sequence a lead byte announces: the number of
      its leading one bits, with 0 for a single-byte character. */
  function LeadingOnes(b: Byte): nat
  {
    if b < 0x80 then 0
    else if b < 0xC0 then 1
    else if b < 0xE0 then 2
    else if b < 0xF0 then 3
    else if b < 0xF8 then 4
    else 5
  }

  predicate IsContinuation(b: Byte)
  {
    0x80 <= b < 0xC0
  }

  /** The code point a lead byte and its continuation bytes encode, if the
      sequence is valid UTF-8: not overlong, not a surrogate, not above
      U+10FFFF. */
  function Utf8Decode(bytes: seq<Byte>): Option<char>
    requires 2 <= |bytes| <= 4
  {
    var n := |bytes|;
    var b0, b1 := bytes[0] as int, bytes[1] as int;
    var v: int :=
      if n == 2 then (b0 % 32) * 64 + b1 % 64
      else if n == 3 then (b0 % 16) * 4096 + (b1 % 64) * 64 + bytes[2] as int % 64
      else (b0 % 8) * 262144 + (b1 % 64) * 4096 + (bytes[2] as int % 64) * 64 + bytes[3] as int % 64;
    var least := if n == 2 then 0x80 else if n == 3 then 0x800 else 0x1_0000;
    if v < least || (0xD800 <= v < 0xE000) || v > 0x10_FFFF then None
    else Some(v as char)
  }

  // ---------------------------------------------------------------------
  // Hexadecimal

  function HexDigit(n: nat): char
    requires n < 16
  {
    "0123456789ABCDEF"[n]
  }

  /** The value of a hexadecimal digit of either case. */
  function HexValue(c: char): Option<nat>
  {
    if '0' <= c <= '9' then Some(c as int - '0' as int)
    else if 'A' <= c <= 'F' then Some(c as int - 'A' as int + 10)
    else if 'a' <= c <= 'f' then Some(c as int - 'a' as int + 10)
    else None
  }

  lemma HexRoundTrip(n: nat)
    requires n < 16
    ensures HexValue(HexDigit(n)) == Some(n)
  {
  }

  // ---------------------------------------------------------------------
  // Encoding

  /** The characters `encodeURIComponent` leaves as they are. */
  predicate Unreserved(c: char)
  {
    || 'A' <= c <= 'Z' || 'a' <= c <= 'z' || '0' <= c <= '9'
    || c == '-' || c == '_' || c == '.' || c == '!' || c == '~' || c == '*'
    || c == '\'' || c == '(' || c == ')'
  }

  /** `%XY` with upper-case hexadecimal digits. */
  function PercentEscape(b: Byte): string
  {
    ['%', HexDigit(b / 16), HexDigit(b % 16)]
  }

  function EscapeAll(bytes: seq<Byte>): (r: string)
    ensures |r| == 3 * |bytes|
  {
    if |bytes| == 0 then "" else PercentEscape(bytes[0]) + EscapeAll(bytes[1..])
  }

  function EncodeChar(c: char): string
  {
    if Unreserved(c) then [c] else EscapeAll(Utf8(c))
  }

  /** `encodeURIComponent(s)`. JavaScript strings with unpaired surrogates,
      on which it throws, have no counterpart here. */
  function Encode(s: string): string
  {
    if |s| == 0 then "" else EncodeChar(s[0]) + Encode(s[1..])
  }

  // ---------------------------------------------------------------------
  // Decoding

  /** The byte written as `%XY` at position `k`, if there is one. */
  function ByteAt(s: string, k: nat): Option<Byte>
  {
    if k + 3 <= |s| && s[k] == '%' && HexValue(s[k + 1]).Some? && HexValue(s[k + 2]).Some? then
      Some(HexValue(s[k + 1]).value * 16 + HexValue(s[k + 2]).value)
    else
      None
  }

  /** The `count` continuation bytes written as escapes from position `k`. */
  function Continuations(s: string, k: nat, count: nat): (r: Option<seq<Byte>>)
    ensures r.Some? ==> |r.value| == count
    decreases count
  {
    if count == 0 then Some([])
    else match ByteAt(s, k)
      case None => None
      case Some(b) =>
        if !IsContinuation(b) then None
        else match Continuations(s, k + 3, count - 1)
          case None => None
          case Some(rest) => Some([b] + rest)
  }

  /** The first character `s` decodes to, and how many characters of `s` it
      takes: one for a plain character, three per byte for an escape. */
  function DecodeHead(s: string): (r: Result<(char, nat), UriError>)
    requires |s| > 0
    ensures r.Ok? ==> 1 <= r.value.1 <= |s|
  {
    if s[0] != '%' then Ok((s[0], 1))
    else match ByteAt(s, 0)
      case None => Err(UriError)
      case Some(b) =>
        var n := LeadingOnes(b);
        if n == 0 then Ok((b as char, 3))
        else if n == 1 || n > 4 || |s| < 3 * n then Err(UriError)
        else match Continuations(s, 3, n - 1)
          case None => Err(UriError)
          case Some(more) =>
            match Utf8Decode([b] + more)
            case None => Err(UriError)
            case Some(c) => Ok((c, 3 * n))
  }

  /** `decodeURIComponent(s)`. */
  function Decode(s: string): Result<string, UriError>
    decreases |s|
  {
    if |s| == 0 then Ok("")
    else match DecodeHead(s)
      case Err(e) => Err(e)
      case Ok((c, n)) =>
        match Decode(s[n..])
        case Err(e) => Err(e)
        case Ok(t) => Ok([c] + t)
  }

  /** One step of `Decode`: the head, then the rest. */
  lemma DecodeStep(s: string, c: char, n: nat)
    requires |s| > 0 && DecodeHead(s) == Ok((c, n))
    ensures Decode(s[n..]).Ok? ==> Decode(s) == Ok([c] + Decode(s[n..]).value)
    ensures Decode(s[n..]).Err? ==> Decode(s) == Decode(s[n..])
  {
  }

  // ---------------------------------------------------------------------
  // Properties

  /** Text without `%` decodes to itself. */
  lemma {:induction false} DecodePlain(s: string)
    requires '%' !in s
    ensures Decode(s) == Ok(s)
    decreases |s|
  {
    if |s| > 0 {
      DecodePlain(s[1..]);
      assert s == [s[0]] + s[1..];
    }
  }

  /** The escapes that a successful `Continuations` reads cannot cover a
      `%` that does not begin an escape: their own `%` signs begin one, and
      the two characters after each are hexadecimal digits. */
  lemma {:induction false} ContinuationsCover(s: string, p: nat, count: nat, k: nat)
    requires Continuations(s, p, count).Some?
    requires k < |s| && s[k] == '%' && ByteAt(s, k).None?
    ensures k < p || p + 3 * count <= k
    decreases count
  {
    if count > 0 {
      assert ByteAt(s, p).Some?;
      assert HexValue(s[p + 1]).Some? && HexValue(s[p + 2]).Some? && HexValue('%').None?;
      ContinuationsCover(s, p + 3, count - 1, k);
    }
  }

  /** A successful first step stops before any `%` that begins no escape. */
  lemma HeadCover(s: string, k: nat)
    requires |s| > 0 && DecodeHead(s).Ok?
    requires k < |s| && s[k] == '%' && ByteAt(s, k).None?
    ensures DecodeHead(s).value.1 <= k
  {
    if s[0] == '%' {
      var b := ByteAt(s, 0).value;
      assert HexValue(s[1]).Some? && HexValue(s[2]).Some? && HexValue('%').None?;
      if LeadingOnes(b) != 0 {
        ContinuationsCover(s, 3, LeadingOnes(b) - 1, k);
      }
    }
  }

  /** A `%` anywhere in the text that is not followed by two hexadecimal
      digits makes the whole decoding fail. */
  lemma {:induction false} DecodeBadEscape(s: string, k: nat)
    requires k < |s| && s[k] == '%' && ByteAt(s, k).None?
    ensures Decode(s).Err?
    decreases |s|
  {
    if DecodeHead(s).Ok? {
      var (c, n) := DecodeHead(s).value;
      HeadCover(s, k);
      var t := s[n..];
      assert forall i :: 0 <= i < |t| ==> t[i] == s[n + i];
      assert ByteAt(t, k - n) == ByteAt(s, k);
      DecodeBadEscape(t, k - n);
      DecodeStep(s, c, n);
    }
  }

  /** Only unreserved characters and `%`. */
  predicate InAlphabet(s: string)
  {
    forall i :: 0 <= i < |s| ==> Unreserved(s[i]) || s[i] == '%'
  }

  lemma AlphabetAppend(a: string, b: string)
    requires InAlphabet(a) && InAlphabet(b)
    ensures InAlphabet(a + b)
  {
    forall i | 0 <= i < |a + b|
      ensures Unreserved((a + b)[i]) || (a + b)[i] == '%'
    {
      if i >= |a| {
        assert (a + b)[i] == b[i - |a|];
      }
    }
  }

  /** The output of the encoder holds only unreserved characters, `%` and
      upper-case hexadecimal digits. */
  lemma {:induction false} EncodeAlphabet(s: string)
    ensures InAlphabet(Encode(s))
    decreases |s|
  {
    if |s| > 0 {
      EncodeAlphabet(s[1..]);
      EncodeCharAlphabet(s[0]);
      AlphabetAppend(EncodeChar(s[0]), Encode(s[1..]));
    }
  }

  lemma EncodeCharAlphabet(c: char)
    ensures InAlphabet(EncodeChar(c))
  {
    if !Unreserved(c) {
      EscapeAllAlphabet(Utf8(c));
    }
  }

  lemma {:induction false} EscapeAllAlphabet(bytes: seq<Byte>)
    ensures InAlphabet(EscapeAll(bytes))
    decreases |bytes|
  {
    if |bytes| > 0 {
      EscapeAllAlphabet(bytes[1..]);
      EscapeAlphabet(bytes[0]);
      AlphabetAppend(PercentEscape(bytes[0]), EscapeAll(bytes[1..]));
    }
  }

  lemma EscapeAlphabet(b: Byte)
    ensures InAlphabet(PercentEscape(b))
  {
    HexDigitUnreserved(b / 16);
    HexDigitUnreserved(b % 16);
  }

  /** Hexadecimal digits are unreserved characters. */
  lemma HexDigitUnreserved(n: nat)
    requires n < 16
    ensures Unreserved(HexDigit(n))
  {
  }

  // ---------------------------------------------------------------------
  // Round trip

  /** What a decoder needs to know about the UTF-8 bytes of a character that
      is not ASCII: the lead byte announces their number, the others are
      continuation bytes, and together they decode back to the character. */
  lemma Utf8Facts(c: char)
    requires c as int >= 0x80
    ensures Utf8Readable(c)
  {
    var v := c as int;
    if v < 0x800 {
      Utf8FactsTwo(c);
    } else if v < 0x1_0000 {
      Utf8FactsThree(c);
    } else {
      Utf8FactsFour(c);
    }
  }

  /** The lead byte announces the length, the others are continuation bytes,
      and together they decode back to `c`. */
  ghost predicate Utf8Readable(c: char)
  {
    var b := Utf8(c);
    && |b| >= 2
    && LeadingOnes(b[0]) == |b|
    && (forall i :: 1 <= i < |b| ==> IsContinuation(b[i]))
    && Utf8Decode(b) == Some(c)
  }

  lemma Utf8FactsTwo(c: char)
    requires 0x80 <= c as int < 0x800
    ensures Utf8Readable(c)
  {
    Utf8Two(c as int);
  }

  lemma Utf8FactsThree(c: char)
    requires 0x800 <= c as int < 0x1_0000
    ensures Utf8Readable(c)
  {
    Utf8Three(c as int);
  }

  lemma Utf8FactsFour(c: char)
    requires 0x1_0000 <= c as int
    ensures Utf8Readable(c)
  {
    Utf8Four(c as int);
  }

  lemma Utf8Two(v: int)
    requires 0x80 <= v < 0x800
    ensures var b0, b1 := 0xC0 + v / 64, 0x80 + v % 64;
      0xC0 <= b0 < 0xE0 && 0x80 <= b1 < 0xC0 && (b0 % 32) * 64 + b1 % 64 == v
  {
    assert 2 <= v / 64 < 32;
    assert (0xC0 + v / 64) % 32 == v / 64;
  }

  lemma Utf8Three(v: int)
    requires 0x800 <= v < 0x1_0000
    ensures var b0, b1, b2 := 0xE0 + v / 4096, 0x80 + v / 64 % 64, 0x80 + v % 64;
      && 0xE0 <= b0 < 0xF0 && 0x80 <= b1 < 0xC0 && 0x80 <= b2 < 0xC0
      && (b0 % 16) * 4096 + (b1 % 64) * 64 + b2 % 64 == v
  {
    var q := v / 64;
    assert v == q * 64 + v % 64;
    assert q == (q / 64) * 64 + q % 64;
    assert q / 64 == v / 4096;
    assert (0xE0 + v / 4096) % 16 == v / 4096;
  }

  lemma Utf8Four(v: int)
    requires 0x1_0000 <= v < 0x11_0000
    ensures var b0, b1, b2, b3 := 0xF0 + v / 262144, 0x80 + v / 4096 % 64, 0x80 + v / 64 % 64, 0x80 + v % 64;
      && 0xF0 <= b0 < 0xF8 && 0x80 <= b1 < 0xC0 && 0x80 <= b2 < 0xC0 && 0x80 <= b3 < 0xC0
      && (b0 % 8) * 262144 + (b1 % 64) * 4096 + (b2 % 64) * 64 + b3 % 64 == v
  {
    var q := v / 64;
    var p := q / 64;
    assert v == q * 64 + v % 64;
    assert q == p * 64 + q % 64;
    assert p == (p / 64) * 64 + p % 64;
    assert p == v / 4096;
    assert p / 64 == v / 262144;
    var a, b, c, d := v / 262144, v / 4096 % 64, v / 64 % 64, v % 64;
    assert v == a * 262144 + b * 4096 + c * 64 + d;
    assert a <= 4;
    assert (0xF0 + a) % 8 == a;
    assert (0x80 + b) % 64 == b && (0x80 + c) % 64 == c && (0x80 + d) % 64 == d;
  }

  /** An escape written by the encoder reads back as its byte, wherever it sits. */
  lemma EscapeRead(pre: string, b: Byte, rest: string)
    ensures ByteAt(pre + PercentEscape(b) + rest, |pre|) == Some(b)
  {
    var s := pre + PercentEscape(b) + rest;
    var k := |pre|;
    assert s[k] == '%' && s[k + 1] == HexDigit(b / 16) && s[k + 2] == HexDigit(b % 16);
    HexRoundTrip(b / 16);
    HexRoundTrip(b % 16);
  }

  /** Continuation bytes written as escapes are read back in order. */
  lemma {:induction false} ContinuationsRead(pre: string, bytes: seq<Byte>, rest: string)
    requires forall i :: 0 <= i < |bytes| ==> IsContinuation(bytes[i])
    ensures Continuations(pre + EscapeAll(bytes) + rest, |pre|, |bytes|) == Some(bytes)
    decreases |bytes|
  {
    if |bytes| > 0 {
      var e, tail := PercentEscape(bytes[0]), EscapeAll(bytes[1..]);
      var s := pre + EscapeAll(bytes) + rest;
      assert s == pre + e + (tail + rest);
      EscapeRead(pre, bytes[0], tail + rest);
      assert s == (pre + e) + tail + rest;
      ContinuationsRead(pre + e, bytes[1..], rest);
      assert bytes == [bytes[0]] + bytes[1..];
    }
  }

  /** The first character of an encoded text decodes to itself. */
  lemma DecodeHeadEncoded(c: char, rest: string)
    ensures var s := EncodeChar(c) + rest;
      |s| > 0 && DecodeHead(s) == Ok((c, |EncodeChar(c)|))
  {
    if !Unreserved(c) {
      if c as int < 0x80 {
        DecodeHeadAscii(c, rest);
      } else {
        DecodeHeadMulti(c, rest);
      }
    }
  }

  /** An escaped ASCII character is one escape. */
  lemma DecodeHeadAscii(c: char, rest: string)
    requires c as int < 0x80
    ensures DecodeHead(EscapeAll(Utf8(c)) + rest) == Ok((c, 3))
  {
    var b := Utf8(c);
    assert b == [c as int];
    var s := EscapeAll(b) + rest;
    assert s == "" + PercentEscape(b[0]) + rest;
    EscapeRead("", b[0], rest);
  }

  /** A character beyond ASCII is a lead escape and its continuation escapes. */
  lemma DecodeHeadMulti(c: char, rest: string)
    requires c as int >= 0x80
    ensures var s := EscapeAll(Utf8(c)) + rest;
      |s| > 0 && DecodeHead(s) == Ok((c, 3 * |Utf8(c)|))
  {
    var b := Utf8(c);
    Utf8Facts(c);
    var e, tail := PercentEscape(b[0]), EscapeAll(b[1..]);
    var s := EscapeAll(b) + rest;
    assert ByteAt(s, 0) == Some(b[0]) by {
      assert s == "" + e + (tail + rest);
      EscapeRead("", b[0], tail + rest);
    }
    assert Continuations(s, 3, |b| - 1) == Some(b[1..]) by {
      assert s == e + tail + rest;
      ContinuationsRead(e, b[1..], rest);
    }
    DecodeHeadBytes(s, b, c);
  }

  /** `DecodeHead` on a text that starts with the escapes of the bytes `b`
      of one character `c`. */
  lemma DecodeHeadBytes(s: string, b: seq<Byte>, c: char)
    requires 2 <= |b| <= 4 && 3 * |b| <= |s|
    requires ByteAt(s, 0) == Some(b[0]) && LeadingOnes(b[0]) == |b|
    requires Continuations(s, 3, |b| - 1) == Some(b[1..])
    requires Utf8Decode(b) == Some(c)
    ensures DecodeHead(s) == Ok((c, 3 * |b|))
  {
    assert [b[0]] + b[1..] == b;
  }

  /** Decoding undoes encoding: every id survives the trip through a link. */
  lemma {:induction false} DecodeEncode(s: string)
    ensures Decode(Encode(s)) == Ok(s)
    decreases |s|
  {
    if |s| > 0 {
      DecodeEncode(s[1..]);
      var e := EncodeChar(s[0]);
      DecodeHeadEncoded(s[0], Encode(s[1..]));
      assert (e + Encode(s[1..]))[|e|..] == Encode(s[1..]);
      assert s == [s[0]] + s[1..];
    }
  }
}
