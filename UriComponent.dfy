/**
 * `encodeURIComponent`: every character outside the unreserved set
 * `A-Z a-z 0-9 - _ . ! ~ * ' ( )` becomes the `%XX` triples (upper-case hex)
 * of its UTF-8 bytes; unreserved characters are kept. A decoder that reads
 * the triples back is the encoder's left inverse, so distinct strings never
 * encode alike.
 */
module UriComponent {
  import opened Wrappers

  predicate IsAsciiLetterOrDigit(c: char) {
    ('A' <= c <= 'Z') || ('a' <= c <= 'z') || ('0' <= c <= '9')
  }

  /** The characters `encodeURIComponent` leaves as they are. */
  predicate IsUnreserved(c: char) {
    IsAsciiLetterOrDigit(c)
    || c == '-' || c == '_' || c == '.' || c == '!' || c == '~' || c == '*' || c == '\'' || c == '(' || c == ')'
  }

  predicate IsHexUpper(c: char) {
    ('0' <= c <= '9') || ('A' <= c <= 'F')
  }

  /** The characters an encoded string is made of. */
  predicate IsEncodedChar(c: char) {
    IsUnreserved(c) || c == '%' || IsHexUpper(c)
  }

  function HexDigit(d: nat): (c: char)
    requires d < 16
    ensures IsHexUpper(c)
  {
    if d < 10 then ('0' as int + d) as char else ('A' as int + d - 10) as char
  }

  function HexValue(c: char): (d: nat)
    requires IsHexUpper(c)
    ensures d < 16
  {
    if c <= '9' then c as int - '0' as int else c as int - 'A' as int + 10
  }

  lemma HexRoundTrip(d: nat)
    requires d < 16
    ensures HexValue(HexDigit(d)) == d
  {
  }

  predicate IsByte(b: int) {
    0 <= b < 256
  }

  /**
   * The UTF-8 bytes of one Unicode scalar value: one byte below 0x80, and
   * otherwise a lead byte followed by one to three continuation bytes, each
   * holding six bits of the code point.
   */
  function Utf8(c: char): (bytes: seq<int>)
    ensures 1 <= |bytes| <= 4
    ensures forall i :: 0 <= i < |bytes| ==> IsByte(bytes[i])
  {
    var n := c as int;
    if n < 0x80 then [n]
    else if n < 0x800 then [0xC0 + n / 64, 0x80 + n % 64]
    else if n < 0x10000 then [0xE0 + n / 4096, 0x80 + (n / 64) % 64, 0x80 + n % 64]
    else [0xF0 + n / 262144, 0x80 + (n / 4096) % 64, 0x80 + (n / 64) % 64, 0x80 + n % 64]
  }

  /** `%XX` for one byte. */
  function PercentByte(b: int): (t: string)
    requires IsByte(b)
    ensures |t| == 3 && t[0] == '%'
    ensures forall i :: 0 <= i < 3 ==> IsEncodedChar(t[i])
  {
    ['%', HexDigit(b / 16), HexDigit(b % 16)]
  }

  /** The `%XX` triples of the UTF-8 bytes of `c`. */
  function PercentUtf8(c: char): (t: string)
    ensures |t| == 3 * |Utf8(c)|
    ensures forall i :: 0 <= i < |t| ==> IsEncodedChar(t[i])
  {
    var b := Utf8(c);
    if |b| == 1 then PercentByte(b[0])
    else if |b| == 2 then PercentByte(b[0]) + PercentByte(b[1])
    else if |b| == 3 then PercentByte(b[0]) + PercentByte(b[1]) + PercentByte(b[2])
    else PercentByte(b[0]) + PercentByte(b[1]) + PercentByte(b[2]) + PercentByte(b[3])
  }

  function EncodeChar(c: char): (t: string)
    ensures |t| >= 1
    ensures forall i :: 0 <= i < |t| ==> IsEncodedChar(t[i])
  {
    if IsUnreserved(c) then [c] else PercentUtf8(c)
  }

  /** `encodeURIComponent(s)`: the encodings of the characters, in order. */
  function Encode(s: string): (r: string)
    ensures forall i :: 0 <= i < |r| ==> IsEncodedChar(r[i])
    ensures |r| >= |s|
  {
    if s == [] then "" else EncodeChar(s[0]) + Encode(s[1..])
  }

  /** Unreserved characters are kept, so a string of them encodes as itself. */
  lemma {:induction false} EncodeKeepsUnreserved(s: string)
    requires forall i :: 0 <= i < |s| ==> IsUnreserved(s[i])
    ensures Encode(s) == s
  {
    if s != [] {
      EncodeKeepsUnreserved(s[1..]);
      assert [s[0]] + s[1..] == s;
    }
  }

  /** The separators of a query string never occur in an encoded component. */
  lemma EncodeAvoidsDelimiters(s: string)
    ensures '&' !in Encode(s) && '=' !in Encode(s) && '?' !in Encode(s) && ',' !in Encode(s) && '#' !in Encode(s)
  {
    forall i | 0 <= i < |Encode(s)|
      ensures Encode(s)[i] != '&' && Encode(s)[i] != '=' && Encode(s)[i] != '?' && Encode(s)[i] != ',' && Encode(s)[i] != '#'
    {
      assert IsEncodedChar(Encode(s)[i]);
    }
  }

  // ---------------------------------------------------------------------------
  // Reading an encoded string back
  // ---------------------------------------------------------------------------

  /** The byte of a `%XX` triple starting at `i`, if there is one. */
  function ReadByte(s: string, i: nat): (b: Option<int>)
    ensures b.Some? ==> IsByte(b.value)
  {
    if i + 3 <= |s| && s[i] == '%' && IsHexUpper(s[i + 1]) && IsHexUpper(s[i + 2])
    then Some(HexValue(s[i + 1]) * 16 + HexValue(s[i + 2]))
    else None
  }

  /** A continuation byte (`10xxxxxx`) at `i`, as its six payload bits. */
  function ReadContinuation(s: string, i: nat): (r: Option<int>)
    ensures r.Some? ==> 0 <= r.value < 64
  {
    match ReadByte(s, i)
    case Some(b) => if 0x80 <= b < 0xC0 then Some(b - 0x80) else None
    case None => None
  }

  predicate IsScalar(n: int) {
    (0 <= n < 0xD800) || (0xE000 <= n < 0x110000)
  }

  /** The character a code point names and how many characters of input it took. */
  function CharOf(n: int, taken: nat): Option<(char, nat)> {
    if IsScalar(n) then Some((n as char, taken)) else None
  }

  /** Reads one character: a literal one, or the `%XX` triples of its UTF-8 bytes. */
  function DecodeChar(s: string): (r: Option<(char, nat)>)
    requires s != []
  {
    if s[0] != '%' then Some((s[0], 1))
    else match ReadByte(s, 0)
      case None => None
      case Some(b0) =>
        if b0 < 0x80 then CharOf(b0, 3)
        else if 0xC0 <= b0 < 0xE0 then
          match ReadContinuation(s, 3)
          case None => None
          case Some(c1) => CharOf((b0 - 0xC0) * 64 + c1, 6)
        else if 0xE0 <= b0 < 0xF0 then
          match (ReadContinuation(s, 3), ReadContinuation(s, 6))
          case (Some(c1), Some(c2)) => CharOf((b0 - 0xE0) * 4096 + c1 * 64 + c2, 9)
          case _ => None
        else if 0xF0 <= b0 < 0xF8 then
          match (ReadContinuation(s, 3), ReadContinuation(s, 6), ReadContinuation(s, 9))
          case (Some(c1), Some(c2), Some(c3)) => CharOf((b0 - 0xF0) * 262144 + c1 * 4096 + c2 * 64 + c3, 12)
          case _ => None
        else None
  }

  /** Reads a whole encoded string back; `None` when it is not well formed. */
  function Decode(s: string): Option<string>
    decreases |s|
  {
    if s == [] then Some("")
    else match DecodeChar(s)
      case None => None
      case Some((c, taken)) =>
        if taken < 1 || taken > |s| then None
        else match Decode(s[taken..])
          case None => None
          case Some(t) => Some([c] + t)
  }

  /** A `%XX` triple inside the first part of a string is read as its byte. */
  lemma ReadPercentByte(t: string, rest: string, i: nat, b: int)
    requires IsByte(b) && i + 3 <= |t| && t[i..i + 3] == PercentByte(b)
    ensures ReadByte(t + rest, i) == Some(b)
  {
    var s := t + rest;
    assert s[i] == t[i] == '%';
    assert s[i + 1] == t[i + 1] == HexDigit(b / 16);
    assert s[i + 2] == t[i + 2] == HexDigit(b % 16);
    HexRoundTrip(b / 16);
    HexRoundTrip(b % 16);
  }

  /** The `j`-th triple of the encoding of `c` is the `%XX` of its `j`-th UTF-8 byte. */
  lemma PercentUtf8At(c: char, j: nat)
    requires j < |Utf8(c)|
    ensures PercentUtf8(c)[3 * j..3 * j + 3] == PercentByte(Utf8(c)[j])
  {
    var b := Utf8(c);
    var t := PercentUtf8(c);
    if |b| == 2 {
      assert t == PercentByte(b[0]) + PercentByte(b[1]);
    } else if |b| == 3 {
      assert t == PercentByte(b[0]) + PercentByte(b[1]) + PercentByte(b[2]);
    } else if |b| == 4 {
      assert t == PercentByte(b[0]) + PercentByte(b[1]) + PercentByte(b[2]) + PercentByte(b[3]);
    }
  }

  /** The bytes of the encoding of `c`, followed by anything, are read one triple at a time. */
  lemma ReadUtf8Byte(c: char, rest: string, j: nat)
    requires !IsUnreserved(c) && j < |Utf8(c)|
    ensures ReadByte(EncodeChar(c) + rest, 3 * j) == Some(Utf8(c)[j])
  {
    PercentUtf8At(c, j);
    ReadPercentByte(PercentUtf8(c), rest, 3 * j, Utf8(c)[j]);
  }

  lemma TwoByteValue(n: int)
    requires 0x80 <= n < 0x800
    ensures (n / 64) * 64 + n % 64 == n
  {
  }

  lemma ThreeByteValue(n: int)
    requires 0x800 <= n < 0x10000
    ensures (n / 4096) * 4096 + ((n / 64) % 64) * 64 + n % 64 == n
  {
    var q := n / 64;
    assert q * 64 + n % 64 == n;
    assert (q / 64) * 64 + q % 64 == q;
    assert q / 64 == n / 4096;
  }

  lemma FourByteValue(n: int)
    requires 0x10000 <= n < 0x110000
    ensures (n / 262144) * 262144 + ((n / 4096) % 64) * 4096 + ((n / 64) % 64) * 64 + n % 64 == n
  {
    var q := n / 64;
    var r := q / 64;
    assert q * 64 + n % 64 == n;
    assert r * 64 + q % 64 == q;
    assert (r / 64) * 64 + r % 64 == r;
    assert r == n / 4096;
    assert r / 64 == n / 262144;
  }

  lemma DecodeOneByte(c: char, rest: string)
    requires !IsUnreserved(c) && c as int < 0x80
    ensures DecodeChar(EncodeChar(c) + rest) == Some((c, 3))
  {
    ReadUtf8Byte(c, rest, 0);
  }

  lemma DecodeTwoBytes(c: char, rest: string)
    requires 0x80 <= c as int < 0x800
    ensures DecodeChar(EncodeChar(c) + rest) == Some((c, 6))
  {
    ReadUtf8Byte(c, rest, 0);
    ReadUtf8Byte(c, rest, 1);
    TwoByteValue(c as int);
  }

  lemma DecodeThreeBytes(c: char, rest: string)
    requires 0x800 <= c as int < 0x10000
    ensures DecodeChar(EncodeChar(c) + rest) == Some((c, 9))
  {
    ReadUtf8Byte(c, rest, 0);
    ReadUtf8Byte(c, rest, 1);
    ReadUtf8Byte(c, rest, 2);
    ThreeByteValue(c as int);
  }

  lemma DecodeFourBytes(c: char, rest: string)
    requires 0x10000 <= c as int
    ensures DecodeChar(EncodeChar(c) + rest) == Some((c, 12))
  {
    var n := c as int;
    FourReads(c, rest);
    DecodeFourTriples(EncodeChar(c) + rest, 0xF0 + n / 262144, (n / 4096) % 64, (n / 64) % 64, n % 64);
    FourByteValue(n);
  }

  /** The encoding of a four-byte character starts with the `%XX` triples of its four UTF-8 bytes. */
  lemma FourReads(c: char, rest: string)
    requires 0x10000 <= c as int
    ensures var n, s := c as int, EncodeChar(c) + rest;
      && s != [] && s[0] == '%'
      && ReadByte(s, 0) == Some(0xF0 + n / 262144)
      && ReadByte(s, 3) == Some(0x80 + (n / 4096) % 64)
      && ReadByte(s, 6) == Some(0x80 + (n / 64) % 64)
      && ReadByte(s, 9) == Some(0x80 + n % 64)
  {
    ReadUtf8Byte(c, rest, 0);
    ReadUtf8Byte(c, rest, 1);
    ReadUtf8Byte(c, rest, 2);
    ReadUtf8Byte(c, rest, 3);
  }

  /** Four `%XX` triples of a lead byte and three continuation bytes make one character. */
  lemma DecodeFourTriples(s: string, b0: int, c1: int, c2: int, c3: int)
    requires s != [] && s[0] == '%' && 0xF0 <= b0 < 0xF8
    requires 0 <= c1 < 64 && 0 <= c2 < 64 && 0 <= c3 < 64
    requires ReadByte(s, 0) == Some(b0)
    requires ReadByte(s, 3) == Some(0x80 + c1) && ReadByte(s, 6) == Some(0x80 + c2) && ReadByte(s, 9) == Some(0x80 + c3)
    ensures DecodeChar(s) == CharOf((b0 - 0xF0) * 262144 + c1 * 4096 + c2 * 64 + c3, 12)
  {
    assert ReadContinuation(s, 3) == Some(c1);
    assert ReadContinuation(s, 6) == Some(c2);
    assert ReadContinuation(s, 9) == Some(c3);
  }

  /** One character's encoding, followed by anything, reads back as that character. */
  lemma DecodeEncodeChar(c: char, rest: string)
    ensures DecodeChar(EncodeChar(c) + rest) == Some((c, |EncodeChar(c)|))
  {
    var n := c as int;
    if IsUnreserved(c) {
      assert (EncodeChar(c) + rest)[0] == c;
    } else if n < 0x80 {
      DecodeOneByte(c, rest);
    } else if n < 0x800 {
      DecodeTwoBytes(c, rest);
    } else if n < 0x10000 {
      DecodeThreeBytes(c, rest);
    } else {
      DecodeFourBytes(c, rest);
    }
  }

  /** Decoding undoes encoding; hence `Encode` is injective. */
  lemma {:induction false} DecodeEncode(s: string)
    ensures Decode(Encode(s)) == Some(s)
  {
    if s != [] {
      var e := EncodeChar(s[0]);
      DecodeEncodeChar(s[0], Encode(s[1..]));
      DecodeEncode(s[1..]);
      assert (e + Encode(s[1..]))[|e|..] == Encode(s[1..]);
      assert [s[0]] + s[1..] == s;
    }
  }

  lemma EncodeInjective(s: string, t: string)
    requires Encode(s) == Encode(t)
    ensures s == t
  {
    DecodeEncode(s);
    DecodeEncode(t);
  }
}
