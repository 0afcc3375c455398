/** The mail renderer, which must write the same text before and after the
    key-encryption key is rotated. */
module EmailRendering {
  import opened Wrappers
  import opened Strings
  import opened Utf8
  import opened Secrets
  import opened UrlEncoded
  import opened Redirects
  import opened SigningKeys
  import opened KeyEncryption

  datatype DeliveryError =
    | MissingKeyEncryptionKey
    | MissingMessageField(id: int, field: string)
    | InvalidMetadata(id: int, field: string)
    | Secret

  datatype Payload = Payload(
    id: int, to: string, subject: string, text: string, template: string, metadata: map<string, MetadataValue>)

  /** The parts of the configuration that mail depends on. */
  datatype MailConfig = MailConfig(cipher: Cipher, publicWebOrigin: string, keyEncryptionKey: Option<Kek>)

  const MARKER := "{{action_url}}"

  // ------------------------------------------------------------- rendering

  /** Rust's `str::replace`. */
  function Replace(text: string, marker: string, link: string): string
    requires marker != []
    decreases |text|
  {
    if text == [] then []
    else if marker <= text then link + Replace(text[|marker|..], marker, link)
    else [text[0]] + Replace(text[1..], marker, link)
  }

  function Page(origin: string, path: string): string {
    TrimEnd(origin, Is('/')) + path
  }

  function Link(origin: string, path: string, token: string): string {
    Page(origin, path) + "?token=" + PercentEncodeMinimal(token)
  }

  function ActionUrl(id: int, row: OutboxRow, config: MailConfig): Result<string, DeliveryError> {
    var accountTokenId, kind := MetadataStr(row.metadata, "account_token_id"), MetadataStr(row.metadata, "kind");
    if config.keyEncryptionKey.None? then Err(MissingKeyEncryptionKey)
    else if row.actionPath.None? then Err(MissingMessageField(id, "action_path"))
    else if row.ciphertext.None? then Err(MissingMessageField(id, "delivery_token_ciphertext"))
    else if row.nonce.None? then Err(MissingMessageField(id, "delivery_token_nonce"))
    else if accountTokenId.None? then Err(InvalidMetadata(id, "account_token_id"))
    else if kind.None? then Err(InvalidMetadata(id, "kind"))
    else
      match DecryptSecret(config.cipher, EncryptedSecret(row.ciphertext.value, row.nonce.value),
                          config.keyEncryptionKey.value, AccountTokenDeliveryAad(kind.value, accountTokenId.value))
      case None => Err(Secret)
      case Some(token) => Ok(Link(config.publicWebOrigin, row.actionPath.value, token))
  }

  function RenderEmail(id: int, row: OutboxRow, config: MailConfig): Result<Payload, DeliveryError> {
    if Contains(row.bodyText, MARKER) then
      match ActionUrl(id, row, config)
      case Err(error) => Err(error)
      case Ok(url) =>
        Ok(Payload(id, row.recipient, row.subject, Replace(row.bodyText, MARKER, url), row.template, row.metadata))
    else Ok(Payload(id, row.recipient, row.subject, row.bodyText, row.template, row.metadata))
  }

  // ------------------------------------------------------------- the text

  /** No end of the marker is a beginning of it, so two cannot overlap. */
  predicate IsUnbordered(marker: string) {
    marker != [] && forall d :: 0 < d < |marker| ==> !(marker[d..] <= marker)
  }

  lemma NoEarlierMarker(part: string, marker: string, rest: string)
    requires IsUnbordered(marker) && !Contains(part, marker) && part != []
    ensures !(marker <= part + marker + rest)
  {
    var text := part + marker + rest;
    var d := |part|;
    if d < |marker| {
      assert text[d..|marker|] == marker[..|marker| - d];
      assert text[..|marker|][d..] == text[d..|marker|];
      assert text[..|marker|] != marker;
    } else {
      assert part[0..] == part;
      assert text[..|marker|] == part[..|marker|];
    }
  }

  lemma ContainsTail(part: string, marker: string)
    requires part != [] && !Contains(part, marker)
    ensures !Contains(part[1..], marker)
  {
    forall i | 0 <= i <= |part[1..]|
      ensures !(marker <= part[1..][i..])
    {
      assert part[1..][i..] == part[i + 1..];
    }
  }

  lemma {:induction false} ReplaceFirst(part: string, marker: string, rest: string, link: string)
    requires IsUnbordered(marker) && !Contains(part, marker)
    ensures Replace(part + marker + rest, marker, link) == part + link + Replace(rest, marker, link)
  {
    if part == [] {
      ReplaceMarker(marker, rest, link);
    } else {
      NoEarlierMarker(part, marker, rest);
      ContainsTail(part, marker);
      ReplaceFirst(part[1..], marker, rest, link);
      assert [part[0]] + part[1..] == part;
      Associate([part[0]], part[1..], marker, rest);
      Associate([part[0]], part[1..], link, Replace(rest, marker, link));
      ReplaceStep(part[0], part[1..] + marker + rest, marker, link);
    }
  }

  lemma ReplaceStep(c: char, text: string, marker: string, link: string)
    requires marker != [] && !(marker <= [c] + text)
    ensures Replace([c] + text, marker, link) == [c] + Replace(text, marker, link)
  {
    assert ([c] + text)[1..] == text;
  }

  lemma ReplaceMarker(marker: string, rest: string, link: string)
    requires marker != []
    ensures Replace([] + marker + rest, marker, link) == [] + link + Replace(rest, marker, link)
  {
    assert [] + marker + rest == marker + rest;
    assert (marker + rest)[|marker|..] == rest;
  }

  lemma {:induction false} ReplaceNothing(part: string, marker: string, link: string)
    requires marker != [] && !Contains(part, marker)
    ensures Replace(part, marker, link) == part
  {
    if part != [] {
      assert part[0..] == part;
      ContainsTail(part, marker);
      ReplaceNothing(part[1..], marker, link);
    }
  }

  lemma {:induction false} ReplacesEveryMarker(parts: seq<string>, marker: string, link: string)
    requires IsUnbordered(marker)
    requires parts != [] && forall i :: 0 <= i < |parts| ==> !Contains(parts[i], marker)
    ensures Replace(Join(parts, marker), marker, link) == Join(parts, link)
    ensures Contains(Join(parts, marker), marker) <==> |parts| > 1
  {
    if |parts| == 1 {
      ReplaceNothing(parts[0], marker, link);
    } else {
      assert Join(parts, marker)[|parts[0]|..] == marker + Join(parts[1..], marker);
      ReplaceFirst(parts[0], marker, Join(parts[1..], marker), link);
      ReplacesEveryMarker(parts[1..], marker, link);
    }
  }

  lemma MarkerIsUnbordered()
    ensures IsUnbordered(MARKER)
  {
    forall d | 0 < d < |MARKER|
      ensures !(MARKER[d..] <= MARKER)
    {
      assert MARKER[d] != MARKER[0] || MARKER[d + 1] != MARKER[1];
    }
  }

  /** The parts of a text between its markers. */
  predicate SplitsAt(parts: seq<string>, text: string, marker: string) {
    parts != [] && Join(parts, marker) == text && forall i :: 0 <= i < |parts| ==> !Contains(parts[i], marker)
  }

  lemma GrowFirst(c: char, text: string, parts: seq<string>, marker: string)
    requires marker != [] && SplitsAt(parts, text, marker) && !(marker <= [c] + text)
    ensures SplitsAt([[c] + parts[0]] + parts[1..], [c] + text, marker)
  {
    var first, grown := [c] + parts[0], [[c] + parts[0]] + parts[1..];
    assert parts == [parts[0]] + parts[1..];
    assert first <= [c] + text;
    if |parts| > 1 {
      JoinCons(parts[0], parts[1..], marker);
      JoinCons(first, parts[1..], marker);
      assert [c] + (parts[0] + marker + Join(parts[1..], marker)) == first + marker + Join(parts[1..], marker);
    }
    forall i | 0 <= i <= |first|
      ensures !(marker <= first[i..])
    {
      if i > 0 {
        assert first[i..] == parts[0][i - 1..];
      } else {
        assert first[0..] == first;
      }
    }
  }

  /** Every text splits at its markers. */
  lemma {:induction false} EveryTextSplits(text: string, marker: string)
    requires marker != []
    ensures exists parts :: SplitsAt(parts, text, marker)
    decreases |text|
  {
    if text == [] {
      assert SplitsAt([[]], text, marker);
    } else if marker <= text {
      EveryTextSplits(text[|marker|..], marker);
      var rest :| SplitsAt(rest, text[|marker|..], marker);
      JoinCons([], rest, marker);
      assert [] + marker + text[|marker|..] == text;
      assert SplitsAt([[]] + rest, text, marker);
    } else {
      EveryTextSplits(text[1..], marker);
      var rest :| SplitsAt(rest, text[1..], marker);
      assert [text[0]] + text[1..] == text;
      GrowFirst(text[0], text[1..], rest, marker);
    }
  }

  /** The parts of the body with the link between them, or what kept the link from
      being made; one part alone needs none. */
  function Rendered(id: int, row: OutboxRow, config: MailConfig, parts: seq<string>): Result<Payload, DeliveryError>
    requires parts != []
  {
    var url := ActionUrl(id, row, config);
    if |parts| > 1 && url.Err? then Err(url.error)
    else
      Ok(Payload(id, row.recipient, row.subject, if |parts| > 1 then Join(parts, url.value) else parts[0],
                 row.template, row.metadata))
  }

  /** Every placeholder of a text becomes the link and nothing else is touched; a
      text without placeholders needs no key and no token. */
  lemma {:induction false} RenderedText(id: int, row: OutboxRow, config: MailConfig, parts: seq<string>)
    requires SplitsAt(parts, row.bodyText, MARKER)
    ensures RenderEmail(id, row, config) == Rendered(id, row, config, parts)
  {
    MarkerIsUnbordered();
    var url := ActionUrl(id, row, config);
    ReplacesEveryMarker(parts, MARKER, if url.Ok? then url.value else "");
  }

  /** So it is for every message. */
  lemma EveryBodyIsRendered(id: int, row: OutboxRow, config: MailConfig)
    ensures exists parts :: SplitsAt(parts, row.bodyText, MARKER) && RenderEmail(id, row, config) == Rendered(id, row, config, parts)
  {
    EveryTextSplits(row.bodyText, MARKER);
    var parts :| SplitsAt(parts, row.bodyText, MARKER);
    RenderedText(id, row, config, parts);
  }

  // ------------------------------------------------------------ the link

  /** The pair of a token, as it is written. */
  lemma TokenPair(token: string)
    ensures FormPair(("token", token)) == "token" + "=" + PercentEncodeMinimal(token)
  {
    PlainName("token");
  }

  lemma LinkText(page: string, token: string)
    ensures page + "?token=" + PercentEncodeMinimal(token) == page + ("?" + FormPair(("token", token)))
  {
    TokenPair(token);
    AssociateFive(page, "?", "token", "=", PercentEncodeMinimal(token));
    Associate("?", "token", "=", PercentEncodeMinimal(token));
    assert "?" + "token" + "=" == "?token=";
  }

  /** What is appended to a page with a query belongs to the query. */
  lemma QueryOfLink(page: string, text: string)
    requires '?' in page && '#' !in page && '#' !in text
    ensures Query(page).Some? && Query(page + text) == Some(Query(page).value + text)
  {
    var mark := Find(page, '?');
    FoundBefore(page, text, '?');
    NoFragment(page);
    NoFragment(page + text);
    assert (page + text)[mark + 1..] == page[mark + 1..] + text;
  }

  /** The question mark stays in the name or value that it stands in. */
  lemma QuestionMarkStays(a: string, b: string)
    ensures Decoded(a + "?" + b).Ok? ==>
      && Unescape(Encode(b)).Some? && '?' in Decoded(a + "?" + b).value
      && |Encode(Decoded(a + "?" + b).value)| > |Unescape(Encode(b)).value|
  {
    var text := a + "?" + b;
    EncodeConcat(a + "?", b);
    EncodeConcat(a, "?");
    EncodeAscii("?");
    assert Encode("?") == ['?' as int];
    UnescapeAround(Encode(a), '?' as int, Encode(b));
    if Decoded(text).Ok? {
      var bytes := Unescape(Encode(text)).value;
      EncodeDecode(bytes);
      assert bytes[|Unescape(Encode(a)).value|] == '?' as int;
      AsciiByteIn(Decoded(text).value, '?');
    }
  }

  lemma TokenBytes(token: string)
    ensures Unescape(Encode(FormPair(("token", token)))).Some? && |Unescape(Encode(FormPair(("token", token)))).value| > |Encode(token)|
  {
    var value := PercentEncodeMinimal(token);
    TokenPair(token);
    EncodeConcat("token" + "=", value);
    EncodeConcat("token", "=");
    EncodeAscii("=");
    assert Encode("=") == ['=' as int];
    UnescapeEscapedBytes(Encode(token));
    DecodesToItself("token");
    UnescapeAround(Encode("token"), '=' as int, Encode(value));
  }

  /** Behind another query the token is not read as such. */
  lemma TokenIsSwallowed(query: string, token: string)
    ensures ParseUrlEncodedPairs(query + ("?" + FormPair(("token", token)))) != Ok([("token", token)])
  {
    ParseAlone(query + ("?" + FormPair(("token", token))), ("token", token));
    if '=' in query {
      var i := Find(query, '=');
      FoundBefore(query, "", '=');
      FindIsFirst(query, '=');
      assert query == query[..i] + "=" + query[i + 1..];
      SwallowedInValue(query[..i], query[i + 1..], token);
    } else {
      SwallowedInName(query, token);
    }
  }

  lemma SwallowedInName(query: string, token: string)
    requires '=' !in query
    ensures ParsePair(query + ("?" + FormPair(("token", token)))) != Ok(("token", token))
  {
    TokenPair(token);
    AssociateFive(query, "?", "token", "=", PercentEncodeMinimal(token));
    Associate("?", "token", "=", PercentEncodeMinimal(token));
    SplitPairAt(query + "?" + "token", PercentEncodeMinimal(token));
    QuestionMarkStays(query, "token");
  }

  lemma SwallowedInValue(name: string, rest: string, token: string)
    requires '=' !in name
    ensures ParsePair(name + "=" + rest + ("?" + FormPair(("token", token)))) != Ok(("token", token))
  {
    AssociateThree(name + "=", rest, "?" + FormPair(("token", token)));
    AssociateThree(rest, "?", FormPair(("token", token)));
    SplitPairAt(name, rest + "?" + FormPair(("token", token)));
    TokenBytes(token);
    QuestionMarkStays(rest, FormPair(("token", token)));
  }

  /** For every origin, path and token: the query of the link reads back as the
      token iff the page has no query of its own; behind a fragment the token is
      not read at all. */
  lemma LinkCarriesToken(origin: string, path: string, token: string)
    ensures '#' !in Page(origin, path) ==>
      (ReadPairs(Link(origin, path, token)) == Ok([("token", token)]) <==> '?' !in Page(origin, path))
    ensures '#' in Page(origin, path) ==> ReadPairs(Link(origin, path, token)) == ReadPairs(Page(origin, path))
  {
    var page := Page(origin, path);
    var text := "?" + FormPair(("token", token));
    LinkText(page, token);
    if '#' in page {
      NothingBehindFragment(page, text);
    } else if '?' in page {
      FormIsFragmentFree([("token", token)]);
      QueryOfLink(page, text);
      TokenIsSwallowed(Query(page).value, token);
    } else {
      AssociateThree(page, "?", FormPair(("token", token)));
      LinkIsRedirect(page, [("token", token)]);
    }
  }

  lemma LinkIsRedirect(uri: string, pairs: seq<Pair>)
    requires '?' !in uri && '#' !in uri && pairs != [] && pairs[0] != ("", "")
    ensures ReadPairs(uri + "?" + Form(pairs)) == Ok(pairs)
  {
    NoFragment(uri);
    FirstIsFound(uri, '?', |uri|);
    RedirectKeepsPairs(uri, pairs);
    assert [] + pairs == pairs;
  }

  /** A token encrypted for a message is the one its link carries. */
  lemma QueuedTokenIsLinked(
    id: int, row: OutboxRow, config: MailConfig, token: string, kind: string, accountTokenId: string)
    requires OpensWhatItSeals(config.cipher) && row.HasToken() && |row.nonce.value| == NONCE_LENGTH
    requires config.keyEncryptionKey.Some? && row.actionPath.Some?
    requires "kind" in row.metadata && row.metadata["kind"] == Text(kind) && kind != ""
    requires "account_token_id" in row.metadata && row.metadata["account_token_id"] == Text(accountTokenId)
    requires accountTokenId != ""
    requires EncryptedSecret(row.ciphertext.value, row.nonce.value)
          == EncryptSecret(config.cipher, token, config.keyEncryptionKey.value,
                           AccountTokenDeliveryAad(kind, accountTokenId), row.nonce.value)
    ensures ActionUrl(id, row, config) == Ok(Link(config.publicWebOrigin, row.actionPath.value, token))
  {
    DecryptUndoesEncrypt(config.cipher, token, config.keyEncryptionKey.value,
                         AccountTokenDeliveryAad(kind, accountTokenId), row.nonce.value);
  }

  /** How many slashes end the origin does not matter. */
  lemma PageIgnoresSlashes(origin: string, slashes: string, path: string)
    requires forall c :: c in slashes ==> c == '/'
    requires origin != [] ==> origin[|origin| - 1] != '/'
    ensures Page(origin + slashes, path) == origin + path
  {
    TrimEndBack(origin, slashes, Is('/'));
  }

  /** What keeps a link from being made, in the order in which it is reported. */
  lemma WhyThereIsNoLink(id: int, row: OutboxRow, config: MailConfig)
    ensures var url := ActionUrl(id, row, config);
      && (config.keyEncryptionKey == None ==> url == Err(MissingKeyEncryptionKey))
      && (config.keyEncryptionKey != None ==>
        && (row.actionPath == None ==> url == Err(MissingMessageField(id, "action_path")))
        && (row.actionPath != None ==>
          && (row.ciphertext == None ==> url == Err(MissingMessageField(id, "delivery_token_ciphertext")))
          && (row.ciphertext != None && row.nonce == None ==> url == Err(MissingMessageField(id, "delivery_token_nonce")))
          && (row.HasToken() && !HasText(row.metadata, "account_token_id") ==> url == Err(InvalidMetadata(id, "account_token_id")))
          && (row.HasToken() && HasText(row.metadata, "account_token_id") && !HasText(row.metadata, "kind") ==> url == Err(InvalidMetadata(id, "kind")))
          && (row.HasToken() && HasText(row.metadata, "account_token_id") && HasText(row.metadata, "kind") ==>
            (url.Ok? || url == Err(Secret)) && (url.Ok? <==> DeliveryToken(config.cipher, row, config.keyEncryptionKey.value).Some?))))
  {
  }

  // ------------------------------------------------- rendering and rotation

  /** What delivery may do to the outbox while a rotation runs: change the
      bookkeeping of messages, and add or drop messages. */
  ghost predicate Delivers(before: Outbox, current: Outbox) {
    forall id :: id in before && id in current ==>
      && current[id].SameMessage(before[id])
      && current[id].ciphertext == before[id].ciphertext && current[id].nonce == before[id].nonce
  }

  /** What a rendering depends on: the message, whether it has its token, and what
      the token decrypts to. */
  lemma RenderingDependsOnToken(id: int, a: OutboxRow, b: OutboxRow, inA: MailConfig, inB: MailConfig)
    requires a.SameMessage(b) && a.ciphertext.Some? == b.ciphertext.Some? && a.nonce.Some? == b.nonce.Some?
    requires inA.keyEncryptionKey.Some? && inB.keyEncryptionKey.Some?
    requires inA.publicWebOrigin == inB.publicWebOrigin
    requires DeliveryToken(inA.cipher, a, inA.keyEncryptionKey.value) == DeliveryToken(inB.cipher, b, inB.keyEncryptionKey.value)
    ensures RenderEmail(id, a, inA) == RenderEmail(id, b, inB)
  {
    var plainA := a.(ciphertext := None, nonce := None, status := "", updatedAt := 0);
    assert plainA.bodyText == b.bodyText && plainA.metadata == b.metadata && plainA.actionPath == b.actionPath;
    assert plainA.recipient == b.recipient && plainA.subject == b.subject && plainA.template == b.template;
  }

  /** With mail delivered between listing and writing, every listed message
      renders under the new key to what it rendered to under the old, and every
      other message is left as it is. */
  lemma RotationKeepsMail(
    r: Rotation, keysBefore: Table, before: Outbox, listedKeys: seq<KeyMaterial>, listedTokens: seq<StoredToken>,
    current: Outbox, now: int, id: int, origin: string)
    requires CanApply(r, keysBefore, before, listedKeys, listedTokens) && id in current && Delivers(before, current)
    ensures var after := AppliedTokens(current, NewTokens(r, |listedKeys|, listedTokens), now);
      && after.Keys == current.Keys
      && (id in before ==>
        RenderEmail(id, after[id], MailConfig(r.cipher, origin, Some(r.newKek)))
        == RenderEmail(id, before[id], MailConfig(r.cipher, origin, Some(r.oldKek))))
      && (id !in before ==> after[id] == current[id])
  {
    if id in before {
      assert before[id].metadata == current[id].metadata by {
        assert current[id].SameMessage(before[id]);
        assert current[id].(ciphertext := None, nonce := None, status := "", updatedAt := 0).metadata == current[id].metadata;
      }
    }
    RotationKeepsTokens(r, keysBefore, before, listedKeys, listedTokens, current, now, id);
    if id in before {
      var after := AppliedTokens(current, NewTokens(r, |listedKeys|, listedTokens), now);
      SameMessageChains(after[id], current[id], before[id]);
      RenderingDependsOnToken(id, after[id], before[id],
                              MailConfig(r.cipher, origin, Some(r.newKek)), MailConfig(r.cipher, origin, Some(r.oldKek)));
    }
  }

  lemma SameMessageChains(a: OutboxRow, b: OutboxRow, c: OutboxRow)
    requires a.SameMessage(b) && b.SameMessage(c)
    ensures a.SameMessage(c)
  {
  }
}
