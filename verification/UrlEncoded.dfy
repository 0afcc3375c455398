/** application/x-www-form-urlencoded text: the encoder, the decoder and the pair
    parser (sections 2.1 and 2.3 of RFC 3986, appendix B of RFC 6749). */
module UrlEncoded {
  import opened Strings
  import opened Wrappers
  import opened Utf8

  datatype ParseError = UrlEncodedParseError

  type Pair = (string, string)

  // ------------------------------------------------------------- encoding

  predicate IsUnreservedByte(b: Byte) {
    'A' as int <= b <= 'Z' as int || 'a' as int <= b <= 'z' as int || '0' as int <= b <= '9' as int
    || b == '-' as int || b == '.' as int || b == '_' as int || b == '~' as int
  }

  predicate IsUnreserved(c: char) {
    c as int < 0x80 && IsUnreservedByte(c as int)
  }

  function UpperHex(nibble: int): char
    requires 0 <= nibble < 16
  {
    if nibble < 10 then ('0' as int + nibble) as char else ('A' as int + nibble - 10) as char
  }

  function EscapeByte(b: Byte): string {
    if IsUnreservedByte(b) then [b as char] else ['%', UpperHex(b / 16), UpperHex(b % 16)]
  }

  function PercentEncodeMinimal(value: string): string {
    FlatMap(Encode(value), EscapeByte)
  }

  // ------------------------------------------------------------- decoding

  function HexNibble(b: Byte): (nibble: Option<int>)
    ensures nibble.Some? ==> 0 <= nibble.value < 16
  {
    if '0' as int <= b <= '9' as int then Some(b - '0' as int)
    else if 'a' as int <= b <= 'f' as int then Some(b - 'a' as int + 10)
    else if 'A' as int <= b <= 'F' as int then Some(b - 'A' as int + 10)
    else None
  }

  /** A decoded byte and the number of bytes it was written with. */
  datatype Unit = Unit(byte: Byte, length: nat)

  function UnescapeFirst(bytes: seq<Byte>): (r: Option<Unit>)
    requires bytes != []
    ensures r.Some? ==> 1 <= r.value.length <= |bytes|
  {
    if bytes[0] == '+' as int then Some(Unit(' ' as int, 1))
    else if bytes[0] == '%' as int then
      if |bytes| < 3 then None
      else
        match (HexNibble(bytes[1]), HexNibble(bytes[2]))
        case (Some(high), Some(low)) => Some(Unit(high * 16 + low, 3))
        case _ => None
    else Some(Unit(bytes[0], 1))
  }

  function Unescape(bytes: seq<Byte>): Option<seq<Byte>> {
    if bytes == [] then Some([])
    else
      match UnescapeFirst(bytes)
      case None => None
      case Some(first) =>
        match Unescape(bytes[first.length..])
        case None => None
        case Some(rest) => Some([first.byte] + rest)
  }

  ghost function Prepend(front: seq<Byte>, rest: Option<seq<Byte>>): Option<seq<Byte>> {
    if rest.None? then None else Some(front + rest.value)
  }

  lemma PrependStep(front: seq<Byte>, bytes: seq<Byte>)
    requires bytes != []
    ensures var first := UnescapeFirst(bytes);
      Prepend(front, Unescape(bytes))
      == if first.None? then None else Prepend(front + [first.value.byte], Unescape(bytes[first.value.length..]))
  {
    var first := UnescapeFirst(bytes);
    if first.Some? && Unescape(bytes[first.value.length..]).Some? {
      var rest := Unescape(bytes[first.value.length..]).value;
      assert front + ([first.value.byte] + rest) == (front + [first.value.byte]) + rest;
    }
  }

  lemma PrependEnds(bytes: seq<Byte>)
    ensures Prepend([], Unescape(bytes)) == Unescape(bytes)
    ensures Prepend(bytes, Unescape([])) == Some(bytes)
  {
    assert Unescape(bytes).Some? ==> [] + Unescape(bytes).value == Unescape(bytes).value;
    assert bytes + [] == bytes;
  }

  function Decoded(value: string): Result<string, ParseError> {
    match Unescape(Encode(value))
    case None => Err(UrlEncodedParseError)
    case Some(bytes) =>
      match Decode(bytes)
      case None => Err(UrlEncodedParseError)
      case Some(text) => Ok(text)
  }

  method DecodeComponent(value: string) returns (r: Result<string, ParseError>)
    ensures r == Decoded(value)
  {
    hide Unescape;
    var bytes := Encode(value);
    var decoded: seq<Byte> := [];
    var index := 0;
    assert bytes[0..] == bytes;
    PrependEnds(bytes);
    while index < |bytes|
      invariant 0 <= index <= |bytes|
      invariant Unescape(bytes) == Prepend(decoded, Unescape(bytes[index..]))
    {
      ghost var ahead, before := bytes[index..], decoded;
      PrependStep(before, ahead);
      if bytes[index] == '+' as int {
        decoded := decoded + [' ' as int];
        index := index + 1;
        assert ahead[1..] == bytes[index..];
      } else if bytes[index] == '%' as int {
        if index + 2 >= |bytes| {
          return Err(UrlEncodedParseError);
        }
        var high, low := HexNibble(bytes[index + 1]), HexNibble(bytes[index + 2]);
        if high.None? || low.None? {
          return Err(UrlEncodedParseError);
        }
        decoded := decoded + [high.value * 16 + low.value];
        index := index + 3;
        assert ahead[3..] == bytes[index..];
      } else {
        decoded := decoded + [bytes[index]];
        index := index + 1;
        assert ahead[1..] == bytes[index..];
      }
    }
    PrependEnds(decoded);
    assert bytes[index..] == [];
    match Decode(decoded) {
      case None => return Err(UrlEncodedParseError);
      case Some(text) => return Ok(text);
    }
  }

  // ---------------------------------------------------------------- pairs

  /** Rust's `split`. */
  function Split(s: string, separator: char): (parts: seq<string>)
    ensures parts != []
  {
    if s == [] then [[]]
    else
      var rest := Split(s[1..], separator);
      if s[0] == separator then [[]] + rest else [[s[0]] + rest[0]] + rest[1..]
  }

  /** `split_once('=')`, with an empty value when there is no `=`. */
  function SplitPair(pair: string): Pair {
    if pair == [] then ([], [])
    else if pair[0] == '=' then ([], pair[1..])
    else
      var (name, value) := SplitPair(pair[1..]);
      ([pair[0]] + name, value)
  }

  function ParsePair(pair: string): Result<Pair, ParseError> {
    var (name, value) := SplitPair(pair);
    match (Decoded(name), Decoded(value))
    case (Ok(n), Ok(v)) => Ok((n, v))
    case _ => Err(UrlEncodedParseError)
  }

  function Collect(parts: seq<string>): (r: Result<seq<Pair>, ParseError>)
    ensures r.Ok? ==> |r.value| == |parts|
  {
    if parts == [] then Ok([])
    else
      match (ParsePair(parts[0]), Collect(parts[1..]))
      case (Ok(first), Ok(rest)) => Ok([first] + rest)
      case _ => Err(UrlEncodedParseError)
  }

  function ParseUrlEncodedPairs(input: string): Result<seq<Pair>, ParseError> {
    if input == [] then Ok([]) else Collect(Split(input, '&'))
  }

  // ------------------------------------------------------- the characters

  /** Section 2.3 of RFC 3986. */
  predicate IsUnreservedCharacter(c: char) {
    c in UPPER || c in LOWER || c in DIGITS || c in "-._~"
  }

  const UPPER_HEX := "0123456789ABCDEF"

  const LOWER_HEX := "0123456789abcdef"

  lemma UnreservedCharacters(c: char)
    ensures IsUnreserved(c) <==> IsUnreservedCharacter(c)
  {
    InUpper(c);
    InLower(c);
    InDigits(c);
  }

  /** A hexadecimal digit in either case has its place as value, and nothing else
      is one. */
  lemma HexDigits(d: nat, b: Byte)
    ensures d < 16 ==> HexNibble(UPPER_HEX[d] as int) == Some(d) && HexNibble(LOWER_HEX[d] as int) == Some(d)
    ensures HexNibble(b).Some? ==> UPPER_HEX[HexNibble(b).value] as int == b || LOWER_HEX[HexNibble(b).value] as int == b
  {
  }

  predicate IsHexOf(c: Byte, d: nat)
    requires d < 16
  {
    c == UPPER_HEX[d] as int || c == LOWER_HEX[d] as int
  }

  lemma HexValue(c: Byte, d: nat)
    requires d < 16 && IsHexOf(c, d)
    ensures HexNibble(c) == Some(d)
  {
    HexDigits(d, c);
  }

  /** An escape decodes to its byte in whichever case each of its digits is. */
  lemma EscapesInEitherCase(high: nat, low: nat, x: Byte, y: Byte, rest: seq<Byte>)
    requires high < 16 && low < 16 && IsHexOf(x, high) && IsHexOf(y, low)
    ensures Unescape(['%' as int, x, y] + rest) == Prepend([high * 16 + low], Unescape(rest))
  {
    hide IsHexOf, HexNibble;
    var bytes := ['%' as int, x, y] + rest;
    HexValue(x, high);
    HexValue(y, low);
    assert bytes[3..] == rest;
  }

  /** The encoder escapes exactly the bytes that are not unreserved characters, with
      uppercase digits. */
  lemma EscapeByCharacter(b: Byte)
    ensures b < 0x80 && IsUnreservedCharacter(b as char) ==> EscapeByte(b) == [b as char]
    ensures !(b < 0x80 && IsUnreservedCharacter(b as char)) ==> EscapeByte(b) == ['%', UPPER_HEX[b / 16], UPPER_HEX[b % 16]]
  {
    if b < 0x80 {
      UnreservedCharacters(b as char);
    }
  }

  // ------------------------------------------------ encoder and decoder

  /** What the encoder may write. */
  predicate IsEncoded(text: string) {
    text == []
    || (IsUnreserved(text[0]) && IsEncoded(text[1..]))
    || (|text| >= 3 && text[0] == '%' && IsUpperHex(text[1]) && IsUpperHex(text[2]) && IsEncoded(text[3..]))
  }

  predicate IsUpperHex(c: char) {
    '0' <= c <= '9' || 'A' <= c <= 'F'
  }

  lemma EscapedByteForm(b: Byte, rest: string)
    requires IsEncoded(rest)
    ensures IsEncoded(EscapeByte(b) + rest)
    ensures 1 <= |EscapeByte(b)| <= 3
    ensures forall c :: c in EscapeByte(b) ==> IsUnreserved(c) || c == '%'
  {
    assert (EscapeByte(b) + rest)[|EscapeByte(b)|..] == rest;
  }

  lemma {:induction false} EscapedForm(bytes: seq<Byte>)
    ensures var text := FlatMap(bytes, EscapeByte);
      && IsEncoded(text)
      && IsAscii(text)
      && |bytes| <= |text| <= 3 * |bytes|
      && forall c :: c in text ==> IsUnreserved(c) || c == '%'
  {
    if bytes != [] {
      EscapedForm(bytes[1..]);
      var rest := FlatMap(bytes[1..], EscapeByte);
      var text := FlatMap(bytes, EscapeByte);
      var first := EscapeByte(bytes[0]);
      EscapedByteForm(bytes[0], rest);
    }
  }

  /** The encoding consists of unreserved characters and uppercase escapes and is
      at most three times as long as the text in UTF-8. */
  lemma EncodingForm(value: string)
    ensures var text := PercentEncodeMinimal(value);
      && IsEncoded(text)
      && |Encode(value)| <= |text| <= 3 * |Encode(value)|
      && (forall c :: c in text ==> IsUnreserved(c) || c == '%')
  {
    EscapedForm(Encode(value));
  }

  lemma UnescapeEscaped(b: Byte, rest: seq<Byte>)
    ensures var bytes := Encode(EscapeByte(b)) + rest;
      UnescapeFirst(bytes) == Some(Unit(b, |EscapeByte(b)|)) && bytes[|EscapeByte(b)|..] == rest
  {
    EncodeAscii(EscapeByte(b));
  }

  lemma {:induction false} UnescapeEscapedBytes(bytes: seq<Byte>)
    ensures Unescape(Encode(FlatMap(bytes, EscapeByte))) == Some(bytes)
  {
    if bytes != [] {
      var first, rest := EscapeByte(bytes[0]), FlatMap(bytes[1..], EscapeByte);
      EncodeConcat(first, rest);
      UnescapeEscaped(bytes[0], Encode(rest));
      UnescapeEscapedBytes(bytes[1..]);
      assert [bytes[0]] + bytes[1..] == bytes;
    }
  }

  /** Decoding undoes encoding, for every text. */
  lemma DecodeUndoesEncode(value: string)
    ensures Decoded(PercentEncodeMinimal(value)) == Ok(value)
  {
    UnescapeEscapedBytes(Encode(value));
    DecodeEncode(value);
  }

  /** The encoding is a normal form: two decodable inputs decode to the same text
      iff encoding their decodings gives the same text. */
  lemma EncodingIsNormalForm(a: string, b: string)
    requires Decoded(a).Ok? && Decoded(b).Ok?
    ensures Decoded(a) == Decoded(b)
       <==> PercentEncodeMinimal(Decoded(a).value) == PercentEncodeMinimal(Decoded(b).value)
  {
    DecodeUndoesEncode(Decoded(a).value);
    DecodeUndoesEncode(Decoded(b).value);
  }

  // ------------------------------------------- text that decodes to itself

  predicate IsPlainByte(b: Byte) {
    b != '%' as int && b != '+' as int
  }

  /** Shorter if there was an escape; otherwise the same, but for the plus signs. */
  predicate HasShape(bytes: seq<Byte>, r: seq<Byte>) {
    && |r| <= |bytes|
    && ('%' as int in bytes ==> |r| < |bytes|)
    && ('%' as int !in bytes ==> |r| == |bytes| && forall i :: 0 <= i < |bytes| ==>
          r[i] == if bytes[i] == '+' as int then ' ' as int else bytes[i])
  }

  lemma ShapeOfPlain(c: Byte, bytes: seq<Byte>, r: seq<Byte>)
    requires c != '%' as int && HasShape(bytes, r)
    ensures HasShape([c] + bytes, [if c == '+' as int then ' ' as int else c] + r)
  {
  }

  lemma ShapeOfEscape(x: Byte, y: Byte, bytes: seq<Byte>, b: Byte, r: seq<Byte>)
    requires HasShape(bytes, r)
    ensures HasShape(['%' as int, x, y] + bytes, [b] + r)
  {
    assert (['%' as int, x, y] + bytes)[0] == '%' as int;
  }

  /** Unescaping shortens what has an escape and keeps no plus sign. */
  lemma {:induction false} UnescapeShape(bytes: seq<Byte>)
    requires Unescape(bytes).Some?
    ensures HasShape(bytes, Unescape(bytes).value)
    decreases |bytes|
  {
    hide HasShape;
    if bytes == [] {
      EmptyShape();
    } else {
      var first := UnescapeFirst(bytes).value;
      var rest := Unescape(bytes[first.length..]).value;
      UnescapeShape(bytes[first.length..]);
      if bytes[0] == '%' as int {
        assert bytes == ['%' as int, bytes[1], bytes[2]] + bytes[3..];
        ShapeOfEscape(bytes[1], bytes[2], bytes[3..], first.byte, rest);
      } else {
        assert bytes == [bytes[0]] + bytes[1..];
        ShapeOfPlain(bytes[0], bytes[1..], rest);
      }
    }
  }

  lemma EmptyShape()
    ensures HasShape([], [])
  {
  }

  /** Decoding gives no more bytes than it reads. */
  lemma DecodingShortens(value: string)
    ensures Decoded(value).Ok? ==> |Encode(Decoded(value).value)| <= |Encode(value)|
  {
    var bytes := Encode(value);
    if Decoded(value).Ok? {
      UnescapeShape(bytes);
      EncodeDecode(Unescape(bytes).value);
    }
  }

  lemma {:induction false} UnescapePlain(bytes: seq<Byte>)
    requires forall b :: b in bytes ==> IsPlainByte(b)
    ensures Unescape(bytes) == Some(bytes)
  {
    if bytes != [] {
      assert bytes[0] in bytes && forall b :: b in bytes[1..] ==> b in bytes;
      UnescapePlain(bytes[1..]);
      assert [bytes[0]] + bytes[1..] == bytes;
    }
  }

  /** A text decodes to itself iff it has no escape and no plus sign. */
  lemma DecodesToItself(value: string)
    ensures Decoded(value) == Ok(value) <==> '%' !in value && '+' !in value
  {
    var bytes := Encode(value);
    AsciiByteIn(value, '%');
    AsciiByteIn(value, '+');
    if '%' !in value && '+' !in value {
      UnescapePlain(bytes);
      DecodeEncode(value);
    } else if Decoded(value) == Ok(value) {
      EncodeDecode(Unescape(bytes).value);
      UnescapeShape(bytes);
      assert false;
    }
  }

  ghost function Around(a: Option<seq<Byte>>, middle: Byte, b: Option<seq<Byte>>): Option<seq<Byte>> {
    if a.None? || b.None? then None else Some(a.value + [middle] + b.value)
  }

  lemma AroundMore(first: Byte, a: Option<seq<Byte>>, middle: Byte, b: Option<seq<Byte>>)
    ensures Around(Prepend([first], a), middle, b) == Prepend([first], Around(a, middle, b))
  {
    assert a.Some? && b.Some? ==> [first] + a.value + [middle] + b.value == [first] + (a.value + [middle] + b.value);
  }

  lemma FirstAround(a: seq<Byte>, middle: Byte, b: seq<Byte>)
    requires HexNibble(middle).None? && a != []
    ensures var first, bytes := UnescapeFirst(a), a + [middle] + b;
      && UnescapeFirst(bytes) == first
      && (first.Some? ==> bytes[first.value.length..] == a[first.value.length..] + [middle] + b)
  {
    var bytes := a + [middle] + b;
    assert bytes[0] == a[0] && (|a| > 1 ==> bytes[1] == a[1]) && (|a| > 2 ==> bytes[2] == a[2]);
    assert bytes[|a|] == middle;
  }

  /** A byte that is written as itself and is no hexadecimal digit splits what is
      decoded around it. */
  lemma {:induction false} UnescapeAround(a: seq<Byte>, middle: Byte, b: seq<Byte>)
    requires IsPlainByte(middle) && HexNibble(middle).None?
    ensures Unescape(a + [middle] + b) == Around(Unescape(a), middle, Unescape(b))
    decreases |a|
  {
    if a == [] {
      var bytes := a + [middle] + b;
      assert bytes[0] == middle && bytes[1..] == b;
      assert Unescape(b).Some? ==> [] + [middle] + Unescape(b).value == [middle] + Unescape(b).value;
    } else {
      var first := UnescapeFirst(a);
      FirstAround(a, middle, b);
      if first.Some? {
        UnescapeAround(a[first.value.length..], middle, b);
        AroundMore(first.value.byte, Unescape(a[first.value.length..]), middle, Unescape(b));
      }
    }
  }

  // ------------------------------------------------- parser and printer

  /** A pair as the encoder writes it. */
  function FormPair(pair: Pair): string {
    PercentEncodeMinimal(pair.0) + "=" + PercentEncodeMinimal(pair.1)
  }

  function Form(pairs: seq<Pair>): string {
    if pairs == [] then []
    else if |pairs| == 1 then FormPair(pairs[0])
    else FormPair(pairs[0]) + "&" + Form(pairs[1..])
  }

  lemma SplitCons(c: char, s: string, separator: char)
    ensures var parts := Split(s, separator);
      Split([c] + s, separator) == if c == separator then [[]] + parts else [[c] + parts[0]] + parts[1..]
  {
    assert ([c] + s)[1..] == s;
  }

  lemma GrowFirst(c: char, parts: seq<string>, more: seq<string>)
    requires parts != []
    ensures [[]] + (parts + more) == ([[]] + parts) + more
    ensures [[c] + (parts + more)[0]] + (parts + more)[1..] == ([[c] + parts[0]] + parts[1..]) + more
  {
  }

  lemma {:induction false} SplitAt(a: string, b: string, separator: char)
    ensures Split(a + [separator] + b, separator) == Split(a, separator) + Split(b, separator)
  {
    if a == [] {
      assert a + [separator] + b == [separator] + b;
      SplitCons(separator, b, separator);
    } else {
      var c, rest := a[0], a[1..];
      var parts, more := Split(rest, separator), Split(b, separator);
      SplitAt(rest, b, separator);
      assert a + [separator] + b == [c] + (rest + [separator] + b) && a == [c] + rest;
      SplitCons(c, rest + [separator] + b, separator);
      SplitCons(c, rest, separator);
      GrowFirst(c, parts, more);
    }
  }

  lemma {:induction false} SplitNothing(s: string, separator: char)
    requires separator !in s
    ensures Split(s, separator) == [s]
  {
    if s != [] {
      assert s[0] in s && forall c :: c in s[1..] ==> c in s;
      SplitNothing(s[1..], separator);
      assert [s[0]] + s[1..] == s;
    }
  }

  /** Splitting counts the separators. */
  lemma {:induction false} SplitSize(s: string, separator: char)
    ensures |Split(s, separator)| == 1 + multiset(s)[separator]
  {
    if s != [] {
      SplitSize(s[1..], separator);
      assert s == [s[0]] + s[1..];
    }
  }

  lemma {:induction false} SplitPairAt(name: string, value: string)
    requires '=' !in name
    ensures SplitPair(name + "=" + value) == (name, value)
  {
    if name == [] {
      assert name + "=" + value == "=" + value;
    } else {
      assert name[0] in name && forall c :: c in name[1..] ==> c in name;
      SplitPairAt(name[1..], value);
      assert (name + "=" + value)[1..] == name[1..] + "=" + value;
      assert [name[0]] + name[1..] == name;
    }
  }

  lemma {:induction false} SplitPairWithoutValue(pair: string)
    requires '=' !in pair
    ensures SplitPair(pair) == (pair, "")
  {
    if pair != [] {
      assert pair[0] in pair && forall c :: c in pair[1..] ==> c in pair;
      SplitPairWithoutValue(pair[1..]);
      assert [pair[0]] + pair[1..] == pair;
    }
  }

  lemma NotWritten(value: string, c: char)
    requires !IsUnreserved(c) && c != '%'
    ensures c !in PercentEncodeMinimal(value)
  {
    EncodingForm(value);
  }

  lemma FormPairHasNo(pair: Pair, c: char)
    requires !IsUnreserved(c) && c != '%' && c != '='
    ensures c !in FormPair(pair)
  {
    NotWritten(pair.0, c);
    NotWritten(pair.1, c);
  }

  lemma ParseFormPair(pair: Pair)
    ensures ParsePair(FormPair(pair)) == Ok(pair)
    ensures '&' !in FormPair(pair) && FormPair(pair) != []
  {
    FormPairHasNo(pair, '&');
    NotWritten(pair.0, '=');
    SplitPairAt(PercentEncodeMinimal(pair.0), PercentEncodeMinimal(pair.1));
    DecodeUndoesEncode(pair.0);
    DecodeUndoesEncode(pair.1);
  }

  function Concat(a: Result<seq<Pair>, ParseError>, b: Result<seq<Pair>, ParseError>): Result<seq<Pair>, ParseError> {
    if a.Ok? && b.Ok? then Ok(a.value + b.value) else Err(UrlEncodedParseError)
  }

  lemma ConcatAssociates(
    a: Result<seq<Pair>, ParseError>, b: Result<seq<Pair>, ParseError>, c: Result<seq<Pair>, ParseError>)
    ensures Concat(Concat(a, b), c) == Concat(a, Concat(b, c))
  {
    if a.Ok? && b.Ok? && c.Ok? {
      assert a.value + b.value + c.value == a.value + (b.value + c.value);
    }
  }

  function ParsedAlone(part: string): Result<seq<Pair>, ParseError> {
    if ParsePair(part).Ok? then Ok([ParsePair(part).value]) else Err(UrlEncodedParseError)
  }

  lemma CollectCons(part: string, parts: seq<string>)
    ensures Collect([part] + parts) == Concat(ParsedAlone(part), Collect(parts))
  {
    assert ([part] + parts)[1..] == parts;
  }

  lemma {:induction false} CollectConcat(a: seq<string>, b: seq<string>)
    ensures Collect(a + b) == Concat(Collect(a), Collect(b))
  {
    if a == [] {
      assert a + b == b;
      assert Collect(b).Ok? ==> [] + Collect(b).value == Collect(b).value;
    } else {
      var first, rest := a[0], a[1..];
      assert a == [first] + rest;
      assert a + b == [first] + (rest + b);
      CollectConcat(rest, b);
      CollectCons(first, rest + b);
      CollectCons(first, rest);
      ConcatAssociates(ParsedAlone(first), Collect(rest), Collect(b));
    }
  }

  lemma {:induction false} FormSplits(pairs: seq<Pair>)
    requires pairs != []
    ensures Form(pairs) != []
    ensures Collect(Split(Form(pairs), '&')) == Ok(pairs)
  {
    var first := FormPair(pairs[0]);
    ParseFormPair(pairs[0]);
    SplitNothing(first, '&');
    assert pairs == [pairs[0]] + pairs[1..];
    if |pairs| == 1 {
      CollectCons(first, []);
      assert [first] + [] == [first];
    } else {
      var rest := Form(pairs[1..]);
      FormSplits(pairs[1..]);
      SplitAt(first, rest, '&');
      CollectCons(first, Split(rest, '&'));
    }
  }

  /** Parsing undoes printing, for every list of pairs. */
  lemma ParseUndoesForm(pairs: seq<Pair>)
    ensures ParseUrlEncodedPairs(Form(pairs)) == Ok(pairs)
  {
    if pairs != [] {
      FormSplits(pairs);
    }
  }

  /** A pair without `=` reads as one with an empty value. */
  lemma AbsentValueIsEmpty(name: string)
    requires '=' !in name
    ensures ParsePair(name) == if Decoded(name).Ok? then Ok((Decoded(name).value, "")) else Err(UrlEncodedParseError)
    ensures ParsePair(name) == ParsePair(name + "=")
  {
    SplitPairWithoutValue(name);
    SplitPairAt(name, "");
    assert name + "=" + "" == name + "=";
    DecodesToItself("");
  }

  /** A text is one pair only if it has no `&`. */
  lemma ParseAlone(text: string, pair: Pair)
    requires text != []
    ensures ParseUrlEncodedPairs(text) == Ok([pair]) <==> '&' !in text && ParsePair(text) == Ok(pair)
    ensures '&' !in text ==> ParseUrlEncodedPairs(text) == ParsedAlone(text)
  {
    SplitSize(text, '&');
    if '&' !in text {
      SplitNothing(text, '&');
      CollectCons(text, []);
      assert [text] + [] == [text];
      assert ParsedAlone(text).Ok? ==> ParsedAlone(text).value + [] == ParsedAlone(text).value;
    }
  }

  lemma ParseOnePair(name: string, value: string)
    requires '=' !in name && '&' !in name && '&' !in value
    ensures ParseUrlEncodedPairs(name + "=" + value)
         == if Decoded(name).Ok? && Decoded(value).Ok? then Ok([(Decoded(name).value, Decoded(value).value)])
            else Err(UrlEncodedParseError)
  {
    ParseAlone(name + "=" + value, ("", ""));
    SplitPairAt(name, value);
  }

  /** A text without `&` and `=` is a name alone. */
  lemma ParseOneName(name: string)
    requires name != [] && '=' !in name && '&' !in name
    ensures ParseUrlEncodedPairs(name) == if Decoded(name).Ok? then Ok([(Decoded(name).value, "")]) else Err(UrlEncodedParseError)
  {
    ParseAlone(name, ("", ""));
    AbsentValueIsEmpty(name);
  }

  /** Parsing two non-empty texts joined by `&` parses each. */
  lemma ParseJoined(a: string, b: string)
    requires a != [] && b != []
    ensures ParseUrlEncodedPairs(a + "&" + b) == Concat(ParseUrlEncodedPairs(a), ParseUrlEncodedPairs(b))
  {
    SplitAt(a, b, '&');
    CollectConcat(Split(a, '&'), Split(b, '&'));
  }
}
