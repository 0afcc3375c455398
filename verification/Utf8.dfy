/** Strings as their UTF-8 bytes: Rust's `str::bytes` and `String::from_utf8`. */
module Utf8 {
  import opened Wrappers

  type Byte = b: int | 0 <= b < 256

  /** How many bytes a code point takes. */
  function Width(n: int): nat {
    if n < 0x80 then 1 else if n < 0x800 then 2 else if n < 0x1_0000 then 3 else 4
  }

  predicate IsScalar(n: int) {
    0 <= n < 0xD800 || 0xE000 <= n < 0x11_0000
  }

  function EncodeNumber(n: int): (bytes: seq<Byte>)
    requires IsScalar(n)
    ensures |bytes| == Width(n)
  {
    match Width(n)
    case 1 => [n]
    case 2 => [0xC0 + n / 0x40, 0x80 + n % 0x40]
    case 3 => [0xE0 + n / 0x1000, 0x80 + n / 0x40 % 0x40, 0x80 + n % 0x40]
    case _ => [0xF0 + n / 0x4_0000, 0x80 + n / 0x1000 % 0x40, 0x80 + n / 0x40 % 0x40, 0x80 + n % 0x40]
  }

  function EncodeChar(c: char): (bytes: seq<Byte>)
    ensures bytes != []
  {
    EncodeNumber(c as int)
  }

  function Encode(s: string): seq<Byte> {
    FlatMap(s, EncodeChar)
  }

  predicate IsContinuation(b: Byte) {
    0x80 <= b < 0xC0
  }

  /** How many bytes a first byte announces; none for one that cannot be first. */
  function Announced(first: Byte): nat {
    if first < 0x80 then 1
    else if first < 0xC0 then 0
    else if first < 0xE0 then 2
    else if first < 0xF0 then 3
    else if first < 0xF8 then 4
    else 0
  }

  /** The bits of a sequence of one to four bytes. */
  function Number(code: seq<Byte>): int
    requires 1 <= |code| <= 4
  {
    match |code|
    case 1 => code[0]
    case 2 => (code[0] as int - 0xC0) * 0x40 + (code[1] as int - 0x80)
    case 3 => (code[0] as int - 0xE0) * 0x1000 + (code[1] as int - 0x80) * 0x40 + (code[2] as int - 0x80)
    case _ => (code[0] as int - 0xF0) * 0x4_0000 + (code[1] as int - 0x80) * 0x1000
              + (code[2] as int - 0x80) * 0x40 + (code[3] as int - 0x80)
  }

  predicate IsCode(code: seq<Byte>) {
    && 1 <= |code| == Announced(code[0])
    && forall i :: 1 <= i < |code| ==> IsContinuation(code[i])
  }

  /** The character at the front; overlong forms, surrogates and values above
      U+10FFFF are refused. */
  function DecodeChar(bytes: seq<Byte>): (c: Option<char>)
    requires bytes != []
  {
    var k := Announced(bytes[0]);
    if k == 0 || k > |bytes| || !IsCode(bytes[..k]) then None
    else
      var n := Number(bytes[..k]);
      if IsScalar(n) && Width(n) == k then Some(n as char) else None
  }

  function Decode(bytes: seq<Byte>): Option<string> {
    if bytes == [] then Some([])
    else
      match DecodeChar(bytes)
      case None => None
      case Some(c) =>
        EncodeDecodedChar(bytes);
        match Decode(bytes[|EncodeChar(c)|..])
        case None => None
        case Some(rest) => Some([c] + rest)
  }

  lemma NumberOfCode(n: int)
    requires IsScalar(n)
    ensures IsCode(EncodeNumber(n)) && Number(EncodeNumber(n)) == n
  {
    assert n / 0x40 / 0x40 == n / 0x1000 && n / 0x1000 / 0x40 == n / 0x4_0000;
  }

  lemma CodeOfNumber(code: seq<Byte>)
    requires IsCode(code) && IsScalar(Number(code)) && Width(Number(code)) == |code|
    ensures EncodeNumber(Number(code)) == code
  {
    match |code| {
      case 1 =>
      case 2 => Digits(code[0] as int - 0xC0, code[1] as int - 0x80);
      case 3 => Digits3(code[0] as int - 0xE0, code[1] as int - 0x80, code[2] as int - 0x80);
      case _ => Digits4(code[0] as int - 0xF0, code[1] as int - 0x80, code[2] as int - 0x80, code[3] as int - 0x80);
    }
  }

  lemma Digits3(a: int, b: int, c: int)
    requires 0 <= b < 0x40 && 0 <= c < 0x40
    ensures var n := a * 0x1000 + b * 0x40 + c;
      n / 0x1000 == a && n / 0x40 % 0x40 == b && n % 0x40 == c
  {
    Digits(a, b);
    Digits(a * 0x40 + b, c);
    var n := a * 0x1000 + b * 0x40 + c;
    assert n / 0x1000 == n / 0x40 / 0x40;
  }

  lemma Digits4(a: int, b: int, c: int, d: int)
    requires 0 <= b < 0x40 && 0 <= c < 0x40 && 0 <= d < 0x40
    ensures var n := a * 0x4_0000 + b * 0x1000 + c * 0x40 + d;
      n / 0x4_0000 == a && n / 0x1000 % 0x40 == b && n / 0x40 % 0x40 == c && n % 0x40 == d
  {
    Digits(a, b);
    Digits3(a * 0x40 + b, c, d);
    var n := a * 0x4_0000 + b * 0x1000 + c * 0x40 + d;
    assert n / 0x4_0000 == n / 0x1000 / 0x40;
  }

  lemma Digits(high: int, low: int)
    requires 0 <= low < 0x40
    ensures (high * 0x40 + low) / 0x40 == high && (high * 0x40 + low) % 0x40 == low
  {
  }

  lemma DecodeEncodedChar(c: char, rest: seq<Byte>)
    ensures DecodeChar(EncodeChar(c) + rest) == Some(c)
  {
    var code := EncodeChar(c);
    NumberOfCode(c as int);
    assert (code + rest)[..|code|] == code;
  }

  /** Only the encoding of a character decodes to it. */
  lemma EncodeDecodedChar(bytes: seq<Byte>)
    requires bytes != [] && DecodeChar(bytes).Some?
    ensures EncodeChar(DecodeChar(bytes).value) <= bytes
  {
    CodeOfNumber(bytes[..Announced(bytes[0])]);
  }

  lemma {:induction false} DecodeEncode(s: string)
    ensures Decode(Encode(s)) == Some(s)
  {
    if s != [] {
      assert s == [s[0]] + s[1..];
      DecodeEncodedChar(s[0], Encode(s[1..]));
      DecodeEncode(s[1..]);
      assert Encode(s)[|EncodeChar(s[0])|..] == Encode(s[1..]);
    }
  }

  lemma {:induction false} EncodeDecode(bytes: seq<Byte>)
    requires Decode(bytes).Some?
    ensures Encode(Decode(bytes).value) == bytes
    decreases |bytes|
  {
    if bytes != [] {
      var c := DecodeChar(bytes).value;
      EncodeDecodedChar(bytes);
      EncodeDecode(bytes[|EncodeChar(c)|..]);
      assert bytes == EncodeChar(c) + bytes[|EncodeChar(c)|..];
      var rest := Decode(bytes[|EncodeChar(c)|..]).value;
      assert ([c] + rest)[1..] == rest;
    }
  }

  lemma EncodeConcat(a: string, b: string)
    ensures Encode(a + b) == Encode(a) + Encode(b)
  {
    FlatMapConcat(a, b, EncodeChar);
  }

  predicate IsAscii(s: string) {
    forall c :: c in s ==> c as int < 0x80
  }

  /** ASCII text is its own encoding. */
  lemma {:induction false} EncodeAscii(s: string)
    requires IsAscii(s)
    ensures |Encode(s)| == |s| && forall i :: 0 <= i < |s| ==> Encode(s)[i] == s[i] as int
  {
    if s != [] {
      assert s[0] in s;
      assert forall c :: c in s[1..] ==> c in s;
      EncodeAscii(s[1..]);
      assert Encode(s) == [s[0] as int] + Encode(s[1..]);
    }
  }

  /** An ASCII byte occurs in the encoding iff the character occurs in the text. */
  lemma {:induction false} AsciiByteIn(s: string, c: char)
    requires c as int < 0x80
    ensures c as int in Encode(s) <==> c in s
  {
    if s != [] {
      AsciiByteIn(s[1..], c);
      assert s == [s[0]] + s[1..];
    }
  }

  /** One character of each length, as the standard writes it. */
  lemma KnownEncodings()
    ensures EncodeChar('A') == [0x41]
    ensures EncodeChar('\U{E9}') == [0xC3, 0xA9]
    ensures EncodeChar('\U{20AC}') == [0xE2, 0x82, 0xAC]
    ensures EncodeChar('\U{1D11E}') == [0xF0, 0x9D, 0x84, 0x9E]
  {
  }
}
