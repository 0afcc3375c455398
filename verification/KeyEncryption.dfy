/** Rotation of the key-encryption key: the stored secrets are listed,
    re-encrypted in memory, and written back in one transaction, while the
    signing keys and the outbox go on changing in between. */
module KeyEncryption {
  import opened Wrappers
  import opened Utf8
  import opened Secrets
  import opened SigningKeys

  /** A JSON metadata value; `Other` is anything but a string. */
  datatype MetadataValue = Text(text: string) | Other(json: string)

  /** A row of `email_outbox`; `status` stands for all delivery bookkeeping. */
  datatype OutboxRow = OutboxRow(
    recipient: string,
    subject: string,
    bodyText: string,
    template: string,
    actionPath: Option<string>,
    ciphertext: Option<Bytes>,
    nonce: Option<Bytes>,
    metadata: map<string, MetadataValue>,
    status: string,
    updatedAt: int)
  {
    predicate HasToken() {
      ciphertext.Some? && nonce.Some?
    }

    /** Everything but the secret and the bookkeeping. */
    predicate SameMessage(other: OutboxRow) {
      this.(ciphertext := None, nonce := None, status := "", updatedAt := 0)
      == other.(ciphertext := None, nonce := None, status := "", updatedAt := 0)
    }
  }

  type Outbox = map<int, OutboxRow>

  datatype Error =
    | InvalidSigningKey
    | SigningKeyDecryption
    | SecretDecryption
    | MissingMetadata(id: int, field: string)

  // -------------------------------------------------------- one secret

  function MetadataStr(metadata: map<string, MetadataValue>, field: string): Option<string> {
    if field in metadata && metadata[field].Text? && metadata[field].text != "" then Some(metadata[field].text) else None
  }

  function AccountTokenDeliveryAad(kind: string, accountTokenId: string): string {
    "cairnid:account-token-delivery:" + kind + ":" + accountTokenId
  }

  function SigningKeyAad(kid: string): string {
    "cairnid:oidc-signing-key:" + kid + ":RS256"
  }

  predicate HasText(metadata: map<string, MetadataValue>, field: string) {
    field in metadata && metadata[field].Text? && metadata[field].text != ""
  }

  /** A field is there iff it is a text that is not empty. */
  lemma MetadataByField(metadata: map<string, MetadataValue>, field: string, text: string)
    ensures MetadataStr(metadata, field) == Some(text) <==> field in metadata && metadata[field] == Text(text) && text != ""
  {
  }

  lemma FirstColon(a: string, x: string)
    requires ':' !in a
    ensures var text := a + ":" + x;
      text[|a|] == ':' && (forall i :: 0 <= i < |a| ==> text[i] != ':') && a == text[..|a|] && x == text[|a| + 1..]
  {
  }

  lemma CutAtColon(a: string, x: string, b: string, y: string)
    requires ':' !in a && ':' !in b && a + ":" + x == b + ":" + y
    ensures a == b && x == y
  {
    FirstColon(a, x);
    FirstColon(b, y);
  }

  lemma SameFront(front: string, a: string, b: string)
    requires front + a == front + b
    ensures a == b
  {
    assert a == (front + a)[|front|..] && b == (front + b)[|front|..];
  }

  /** The associated data of a token names its kind and its id, of a signing key its
      kid, and none of the one is one of the other: a ciphertext cannot be put in
      another's place. */
  lemma AadNamesItsSecret(kind: string, id: string, otherKind: string, otherId: string, kid: string, otherKid: string)
    requires ':' !in kind && ':' !in otherKind
    ensures AccountTokenDeliveryAad(kind, id) == AccountTokenDeliveryAad(otherKind, otherId) <==> kind == otherKind && id == otherId
    ensures SigningKeyAad(kid) == SigningKeyAad(otherKid) <==> kid == otherKid
    ensures SigningKeyAad(kid) != AccountTokenDeliveryAad(kind, id)
  {
    var front := "cairnid:account-token-delivery:";
    if AccountTokenDeliveryAad(kind, id) == AccountTokenDeliveryAad(otherKind, otherId) {
      assert front + kind + ":" + id == front + (kind + ":" + id);
      assert front + otherKind + ":" + otherId == front + (otherKind + ":" + otherId);
      SameFront(front, kind + ":" + id, otherKind + ":" + otherId);
      CutAtColon(kind, id, otherKind, otherId);
    }
    var key, end := "cairnid:oidc-signing-key:", ":RS256";
    if SigningKeyAad(kid) == SigningKeyAad(otherKid) {
      assert key + kid + end == key + (kid + end) && key + otherKid + end == key + (otherKid + end);
      SameFront(key, kid + end, otherKid + end);
      assert |kid| == |otherKid| && kid == (kid + end)[..|kid|] && otherKid == (otherKid + end)[..|otherKid|];
    }
    assert SigningKeyAad(kid)[8] == 'o' && AccountTokenDeliveryAad(kind, id)[8] == 'a';
  }

  /** The private part of a stored key, as its users decrypt it. */
  function PrivateKey(cipher: Cipher, kid: string, row: KeyRow, kek: Kek): Option<string> {
    if row.ciphertext.None? || row.nonce.None? then None
    else DecryptSecret(cipher, EncryptedSecret(row.ciphertext.value, row.nonce.value), kek, SigningKeyAad(kid))
  }

  /** The token of an outbox message, as its renderer decrypts it. */
  function DeliveryToken(cipher: Cipher, row: OutboxRow, kek: Kek): Option<string> {
    var kind, id := MetadataStr(row.metadata, "kind"), MetadataStr(row.metadata, "account_token_id");
    if !row.HasToken() || kind.None? || id.None? then None
    else
      DecryptSecret(cipher, EncryptedSecret(row.ciphertext.value, row.nonce.value), kek,
                    AccountTokenDeliveryAad(kind.value, id.value))
  }

  function ReencryptSigningKeyMaterial(cipher: Cipher, stored: KeyMaterial, oldKek: Kek, newKek: Kek, nonce: Bytes)
    : Result<KeyMaterial, Error>
  {
    if stored.algorithm != "RS256" || |stored.nonce| != NONCE_LENGTH then Err(InvalidSigningKey)
    else
      match cipher.open(stored.ciphertext, oldKek, stored.nonce, SigningKeyAad(stored.kid))
      case None => Err(SigningKeyDecryption)
      case Some(bytes) =>
        match Decode(bytes)
        case None => Err(InvalidSigningKey)
        case Some(pem) =>
          var secret := EncryptSecret(cipher, pem, newKek, SigningKeyAad(stored.kid), nonce);
          Ok(stored.(ciphertext := secret.ciphertext, nonce := secret.nonce))
  }

  datatype StoredToken = StoredToken(id: int, secret: EncryptedSecret, metadata: map<string, MetadataValue>)

  datatype ReencryptedToken = ReencryptedToken(id: int, secret: EncryptedSecret)

  function ReencryptDeliveryToken(cipher: Cipher, token: StoredToken, oldKek: Kek, newKek: Kek, nonce: Bytes)
    : Result<ReencryptedToken, Error>
  {
    match MetadataStr(token.metadata, "kind")
    case None => Err(MissingMetadata(token.id, "kind"))
    case Some(kind) =>
      match MetadataStr(token.metadata, "account_token_id")
      case None => Err(MissingMetadata(token.id, "account_token_id"))
      case Some(accountTokenId) =>
        var aad := AccountTokenDeliveryAad(kind, accountTokenId);
        match DecryptSecret(cipher, token.secret, oldKek, aad)
        case None => Err(SecretDecryption)
        case Some(value) => Ok(ReencryptedToken(token.id, EncryptSecret(cipher, value, newKek, aad, nonce)))
  }

  // ---------------------------------------------------------- the lists

  function MaterialOf(kid: string, row: KeyRow): KeyMaterial
    requires row.ciphertext.Some? && row.nonce.Some?
  {
    KeyMaterial(kid, row.algorithm, row.publicJwk, row.ciphertext.value, row.nonce.value,
                row.signingActive, row.createdAt, row.retiredAt)
  }

  /** An answer to `list_encrypted_signing_key_materials`, in whatever order. */
  ghost predicate ListsKeys(keys: Table, listed: seq<KeyMaterial>) {
    && (forall i, j :: 0 <= i < j < |listed| ==> listed[i].kid != listed[j].kid)
    && (forall i :: 0 <= i < |listed| ==>
         && listed[i].kid in keys && keys[listed[i].kid].ciphertext.Some? && keys[listed[i].kid].nonce.Some?
         && listed[i] == MaterialOf(listed[i].kid, keys[listed[i].kid]))
    && (forall kid :: kid in keys && keys[kid].ciphertext.Some? && keys[kid].nonce.Some?
         ==> exists i :: 0 <= i < |listed| && listed[i].kid == kid)
  }

  /** An answer to `list_email_outbox_delivery_tokens`, in whatever order. */
  ghost predicate ListsTokens(outbox: Outbox, listed: seq<StoredToken>) {
    && (forall i, j :: 0 <= i < j < |listed| ==> listed[i].id != listed[j].id)
    && (forall i :: 0 <= i < |listed| ==>
         && listed[i].id in outbox && outbox[listed[i].id].HasToken()
         && listed[i].secret == EncryptedSecret(outbox[listed[i].id].ciphertext.value, outbox[listed[i].id].nonce.value)
         && listed[i].metadata == outbox[listed[i].id].metadata)
    && (forall id :: id in outbox && outbox[id].HasToken() ==> exists i :: 0 <= i < |listed| && listed[i].id == id)
  }

  /** The keys and fresh nonces of one rotation. */
  datatype Rotation = Rotation(cipher: Cipher, oldKek: Kek, newKek: Kek, nonceFor: nat -> Bytes)

  function NewKey(r: Rotation, listed: seq<KeyMaterial>, i: nat): Result<KeyMaterial, Error>
    requires i < |listed|
  {
    ReencryptSigningKeyMaterial(r.cipher, listed[i], r.oldKek, r.newKek, r.nonceFor(i))
  }

  /** Nonces go on after those of the keys. */
  function NewToken(r: Rotation, after: nat, listed: seq<StoredToken>, i: nat): Result<ReencryptedToken, Error>
    requires i < |listed|
  {
    ReencryptDeliveryToken(r.cipher, listed[i], r.oldKek, r.newKek, r.nonceFor(after + i))
  }

  // --------------------------------------------------------- write back

  function AppliedKeys(keys: Table, signingKeys: seq<KeyMaterial>): Table {
    if signingKeys == [] then keys
    else
      var earlier, key := AppliedKeys(keys, signingKeys[..|signingKeys| - 1]), signingKeys[|signingKeys| - 1];
      if key.kid in earlier
      then earlier[key.kid := earlier[key.kid].(ciphertext := Some(key.ciphertext), nonce := Some(key.nonce))]
      else earlier
  }

  function AppliedTokens(outbox: Outbox, tokens: seq<ReencryptedToken>, now: int): Outbox {
    if tokens == [] then outbox
    else
      var earlier, token := AppliedTokens(outbox, tokens[..|tokens| - 1], now), tokens[|tokens| - 1];
      if token.id in earlier
      then earlier[token.id := earlier[token.id].(
        ciphertext := Some(token.secret.ciphertext), nonce := Some(token.secret.nonce), updatedAt := now)]
      else earlier
  }

  class SecretStore {
    var keys: Table
    var outbox: Outbox

    constructor (keys: Table, outbox: Outbox)
      ensures this.keys == keys && this.outbox == outbox
    {
      this.keys, this.outbox := keys, outbox;
    }

    method ApplyKeyEncryptionRotation(signingKeys: seq<KeyMaterial>, tokens: seq<ReencryptedToken>, now: int)
      modifies this
      ensures keys == AppliedKeys(old(keys), signingKeys)
      ensures outbox == AppliedTokens(old(outbox), tokens, now)
    {
      for i := 0 to |signingKeys|
        invariant keys == AppliedKeys(old(keys), signingKeys[..i])
        invariant outbox == old(outbox)
      {
        assert signingKeys[..i + 1][..i] == signingKeys[..i];
        var key := signingKeys[i];
        if key.kid in keys {
          keys := keys[key.kid := keys[key.kid].(ciphertext := Some(key.ciphertext), nonce := Some(key.nonce))];
        }
      }
      assert signingKeys[..|signingKeys|] == signingKeys;
      for i := 0 to |tokens|
        invariant keys == AppliedKeys(old(keys), signingKeys)
        invariant outbox == AppliedTokens(old(outbox), tokens[..i], now)
      {
        assert tokens[..i + 1][..i] == tokens[..i];
        var token := tokens[i];
        if token.id in outbox {
          outbox := outbox[token.id := outbox[token.id].(
            ciphertext := Some(token.secret.ciphertext), nonce := Some(token.secret.nonce), updatedAt := now)];
        }
      }
      assert tokens[..|tokens|] == tokens;
    }

    /** The `rotate` command after it has listed the secrets; the tables may have
        changed since. */
    method RotateListed(r: Rotation, listedKeys: seq<KeyMaterial>, listedTokens: seq<StoredToken>, now: int)
      returns (result: Result<(nat, nat), Error>)
      modifies this
      ensures result.Ok? <==> Rotates(r, listedKeys, listedTokens)
      ensures result.Err? ==> keys == old(keys) && outbox == old(outbox)
      ensures result.Err? ==> IsFirstFailure(r, listedKeys, listedTokens, result.error)
      ensures result.Ok? ==> result.value == (|listedKeys|, |listedTokens|)
      ensures result.Ok? ==> keys == AppliedKeys(old(keys), NewKeys(r, listedKeys))
      ensures result.Ok? ==> outbox == AppliedTokens(old(outbox), NewTokens(r, |listedKeys|, listedTokens), now)
    {
      hide AppliedKeys, AppliedTokens, ReencryptSigningKeyMaterial, ReencryptDeliveryToken;
      var newKeys: seq<KeyMaterial> := [];
      for i := 0 to |listedKeys|
        invariant keys == old(keys) && outbox == old(outbox)
        invariant |newKeys| == i && forall j :: 0 <= j < i ==> NewKey(r, listedKeys, j) == Ok(newKeys[j])
      {
        var key := NewKey(r, listedKeys, i);
        if key.Err? {
          return Err(key.error);
        }
        newKeys := newKeys + [key.value];
      }
      var newTokens: seq<ReencryptedToken> := [];
      for i := 0 to |listedTokens|
        invariant keys == old(keys) && outbox == old(outbox)
        invariant |newTokens| == i && forall j :: 0 <= j < i ==> NewToken(r, |listedKeys|, listedTokens, j) == Ok(newTokens[j])
      {
        var token := NewToken(r, |listedKeys|, listedTokens, i);
        if token.Err? {
          return Err(token.error);
        }
        newTokens := newTokens + [token.value];
      }
      assert newKeys == NewKeys(r, listedKeys);
      assert newTokens == NewTokens(r, |listedKeys|, listedTokens);
      ApplyKeyEncryptionRotation(newKeys, newTokens, now);
      return Ok((|newKeys|, |newTokens|));
    }
  }

  /** The error of the first secret that cannot be re-encrypted, keys first. */
  ghost predicate IsFirstFailure(r: Rotation, listedKeys: seq<KeyMaterial>, listedTokens: seq<StoredToken>, error: Error) {
    || (exists i :: 0 <= i < |listedKeys| && NewKey(r, listedKeys, i) == Err(error)
         && forall j :: 0 <= j < i ==> NewKey(r, listedKeys, j).Ok?)
    || ((forall i :: 0 <= i < |listedKeys| ==> NewKey(r, listedKeys, i).Ok?)
        && exists i :: 0 <= i < |listedTokens| && NewToken(r, |listedKeys|, listedTokens, i) == Err(error)
             && forall j :: 0 <= j < i ==> NewToken(r, |listedKeys|, listedTokens, j).Ok?)
  }

  /** Every listed secret can be re-encrypted. */
  predicate Rotates(r: Rotation, listedKeys: seq<KeyMaterial>, listedTokens: seq<StoredToken>) {
    && (forall i :: 0 <= i < |listedKeys| ==> NewKey(r, listedKeys, i).Ok?)
    && (forall i :: 0 <= i < |listedTokens| ==> NewToken(r, |listedKeys|, listedTokens, i).Ok?)
  }

  function NewKeys(r: Rotation, listed: seq<KeyMaterial>): seq<KeyMaterial>
    requires forall i :: 0 <= i < |listed| ==> NewKey(r, listed, i).Ok?
  {
    seq(|listed|, i requires 0 <= i < |listed| => NewKey(r, listed, i).value)
  }

  function NewTokens(r: Rotation, after: nat, listed: seq<StoredToken>): seq<ReencryptedToken>
    requires forall i :: 0 <= i < |listed| ==> NewToken(r, after, listed, i).Ok?
  {
    seq(|listed|, i requires 0 <= i < |listed| => NewToken(r, after, listed, i).value)
  }

  // ----------------------------------------------------------- guarantees

  /** A rotation can be carried out iff every listed key is an RS256 key whose
      private part opens under the old key, and every listed token has its
      metadata and opens. */
  lemma RotatesIffEverythingOpens(
    r: Rotation, keys: Table, outbox: Outbox, listedKeys: seq<KeyMaterial>, listedTokens: seq<StoredToken>)
    requires ListsKeys(keys, listedKeys) && ListsTokens(outbox, listedTokens)
    ensures Rotates(r, listedKeys, listedTokens) <==>
      && (forall kid :: kid in keys && keys[kid].ciphertext.Some? && keys[kid].nonce.Some?
           ==> keys[kid].algorithm == "RS256" && PrivateKey(r.cipher, kid, keys[kid], r.oldKek).Some?)
      && (forall id :: id in outbox && outbox[id].HasToken() ==> DeliveryToken(r.cipher, outbox[id], r.oldKek).Some?)
  {
    forall i | 0 <= i < |listedKeys|
      ensures NewKey(r, listedKeys, i).Ok? <==>
        keys[listedKeys[i].kid].algorithm == "RS256"
        && PrivateKey(r.cipher, listedKeys[i].kid, keys[listedKeys[i].kid], r.oldKek).Some?
    {
    }
    forall i | 0 <= i < |listedTokens|
      ensures NewToken(r, |listedKeys|, listedTokens, i).Ok? <==> DeliveryToken(r.cipher, outbox[listedTokens[i].id], r.oldKek).Some?
    {
    }
  }

  /** What keeps a key from being re-encrypted, in the order in which it is
      reported. */
  lemma WhyKeyIsNotReencrypted(cipher: Cipher, stored: KeyMaterial, oldKek: Kek, newKek: Kek, nonce: Bytes)
    ensures var r := ReencryptSigningKeyMaterial(cipher, stored, oldKek, newKek, nonce);
      var found := cipher.open(stored.ciphertext, oldKek, stored.nonce, SigningKeyAad(stored.kid));
      && (stored.algorithm != "RS256" || |stored.nonce| != 12 ==> r == Err(InvalidSigningKey))
      && (stored.algorithm == "RS256" && |stored.nonce| == 12 ==>
        && (found == None ==> r == Err(SigningKeyDecryption))
        && (found != None && Decode(found.value) == None ==> r == Err(InvalidSigningKey))
        && (found != None && Decode(found.value) != None ==> r.Ok?))
  {
  }

  /** And a token. */
  lemma WhyTokenIsNotReencrypted(cipher: Cipher, token: StoredToken, oldKek: Kek, newKek: Kek, nonce: Bytes)
    ensures var r := ReencryptDeliveryToken(cipher, token, oldKek, newKek, nonce);
      && (!HasText(token.metadata, "kind") ==> r == Err(MissingMetadata(token.id, "kind")))
      && (HasText(token.metadata, "kind") && !HasText(token.metadata, "account_token_id")
          ==> r == Err(MissingMetadata(token.id, "account_token_id")))
      && (HasText(token.metadata, "kind") && HasText(token.metadata, "account_token_id") ==> r.Ok? || r == Err(SecretDecryption))
  {
  }

  lemma {:induction false} AppliedKeysRows(keys: Table, list: seq<KeyMaterial>)
    ensures AppliedKeys(keys, list).Keys == keys.Keys
    ensures forall kid :: kid in keys && (forall i :: 0 <= i < |list| ==> list[i].kid != kid) ==> AppliedKeys(keys, list)[kid] == keys[kid]
  {
    if list != [] {
      AppliedKeysRows(keys, list[..|list| - 1]);
    }
  }

  lemma {:induction false} AppliedKeyRow(keys: Table, list: seq<KeyMaterial>, i: nat)
    requires forall i, j :: 0 <= i < j < |list| ==> list[i].kid != list[j].kid
    requires i < |list| && list[i].kid in keys
    ensures list[i].kid in AppliedKeys(keys, list)
    ensures AppliedKeys(keys, list)[list[i].kid]
         == keys[list[i].kid].(ciphertext := Some(list[i].ciphertext), nonce := Some(list[i].nonce))
  {
    var n := |list| - 1;
    AppliedKeysRows(keys, list[..n]);
    if i < n {
      AppliedKeyRow(keys, list[..n], i);
    }
  }

  lemma {:induction false} AppliedTokensRows(outbox: Outbox, list: seq<ReencryptedToken>, now: int)
    ensures AppliedTokens(outbox, list, now).Keys == outbox.Keys
    ensures forall id :: id in outbox && (forall i :: 0 <= i < |list| ==> list[i].id != id) ==>
      AppliedTokens(outbox, list, now)[id] == outbox[id]
  {
    if list != [] {
      AppliedTokensRows(outbox, list[..|list| - 1], now);
    }
  }

  lemma {:induction false} AppliedTokenRow(outbox: Outbox, list: seq<ReencryptedToken>, now: int, i: nat)
    requires forall i, j :: 0 <= i < j < |list| ==> list[i].id != list[j].id
    requires i < |list| && list[i].id in outbox
    ensures list[i].id in AppliedTokens(outbox, list, now)
    ensures AppliedTokens(outbox, list, now)[list[i].id] == outbox[list[i].id].(
      ciphertext := Some(list[i].secret.ciphertext), nonce := Some(list[i].secret.nonce), updatedAt := now)
  {
    var n := |list| - 1;
    AppliedTokensRows(outbox, list[..n], now);
    if i < n {
      AppliedTokenRow(outbox, list[..n], now, i);
    }
  }

  /** One key: what was listed under the old key opens the same under the new. */
  lemma NewKeyOpens(r: Rotation, listed: seq<KeyMaterial>, i: nat, row: KeyRow)
    requires OpensWhatItSeals(r.cipher) && |r.nonceFor(i)| == NONCE_LENGTH
    requires i < |listed| && NewKey(r, listed, i).Ok?
    requires row.ciphertext.Some? && row.nonce.Some? && listed[i] == MaterialOf(listed[i].kid, row)
    ensures var key := NewKey(r, listed, i).value;
      && key.kid == listed[i].kid
      && PrivateKey(r.cipher, key.kid, row, r.oldKek).Some?
      && DecryptSecret(r.cipher, EncryptedSecret(key.ciphertext, key.nonce), r.newKek, SigningKeyAad(key.kid))
         == PrivateKey(r.cipher, key.kid, row, r.oldKek)
  {
    var pem := PrivateKey(r.cipher, listed[i].kid, row, r.oldKek);
    DecryptUndoesEncrypt(r.cipher, pem.value, r.newKek, SigningKeyAad(listed[i].kid), r.nonceFor(i));
  }

  /** One token. */
  lemma NewTokenOpens(r: Rotation, after: nat, listed: seq<StoredToken>, i: nat, row: OutboxRow)
    requires OpensWhatItSeals(r.cipher) && |r.nonceFor(after + i)| == NONCE_LENGTH
    requires i < |listed| && NewToken(r, after, listed, i).Ok?
    requires row.HasToken() && listed[i].secret == EncryptedSecret(row.ciphertext.value, row.nonce.value)
    requires listed[i].metadata == row.metadata
    ensures var token := NewToken(r, after, listed, i).value;
      && token.id == listed[i].id
      && DeliveryToken(r.cipher, row, r.oldKek).Some?
      && DeliveryToken(r.cipher, row.(ciphertext := Some(token.secret.ciphertext), nonce := Some(token.secret.nonce)), r.newKek)
         == DeliveryToken(r.cipher, row, r.oldKek)
  {
    var kind, tokenId := MetadataStr(row.metadata, "kind").value, MetadataStr(row.metadata, "account_token_id").value;
    var token := DeliveryToken(r.cipher, row, r.oldKek).value;
    DecryptUndoesEncrypt(r.cipher, token, r.newKek, AccountTokenDeliveryAad(kind, tokenId), r.nonceFor(after + i));
  }

  /** The state of a rotation: what was listed, and the tables it is written to. */
  ghost predicate CanApply(
    r: Rotation, listedFrom: Table, tokensFrom: Outbox, listedKeys: seq<KeyMaterial>, listedTokens: seq<StoredToken>)
  {
    && OpensWhatItSeals(r.cipher) && (forall i :: |r.nonceFor(i)| == NONCE_LENGTH)
    && ListsKeys(listedFrom, listedKeys) && ListsTokens(tokensFrom, listedTokens)
    && Rotates(r, listedKeys, listedTokens)
  }

  lemma NewKeysKeepKids(r: Rotation, listed: seq<KeyMaterial>)
    requires forall i :: 0 <= i < |listed| ==> NewKey(r, listed, i).Ok?
    ensures |NewKeys(r, listed)| == |listed|
    ensures forall i :: 0 <= i < |listed| ==> NewKeys(r, listed)[i].kid == listed[i].kid
  {
    forall i | 0 <= i < |listed|
      ensures NewKeys(r, listed)[i].kid == listed[i].kid
    {
      assert NewKey(r, listed, i).Ok?;
    }
  }

  lemma NewTokensKeepIds(r: Rotation, after: nat, listed: seq<StoredToken>)
    requires forall i :: 0 <= i < |listed| ==> NewToken(r, after, listed, i).Ok?
    ensures |NewTokens(r, after, listed)| == |listed|
    ensures forall i :: 0 <= i < |listed| ==> NewTokens(r, after, listed)[i].id == listed[i].id
  {
    forall i | 0 <= i < |listed|
      ensures NewTokens(r, after, listed)[i].id == listed[i].id
    {
      assert NewToken(r, after, listed, i).Ok?;
    }
  }

  lemma ListedKeyOpens(
    r: Rotation, before: Table, tokensBefore: Outbox, listedKeys: seq<KeyMaterial>, listedTokens: seq<StoredToken>,
    current: Table, i: nat)
    requires CanApply(r, before, tokensBefore, listedKeys, listedTokens)
    requires i < |listedKeys| && listedKeys[i].kid in current
    ensures var kid, after := listedKeys[i].kid, AppliedKeys(current, NewKeys(r, listedKeys));
      && kid in after
      && after[kid] == current[kid].(ciphertext := after[kid].ciphertext, nonce := after[kid].nonce)
      && PrivateKey(r.cipher, kid, before[kid], r.oldKek).Some?
      && PrivateKey(r.cipher, kid, after[kid], r.newKek) == PrivateKey(r.cipher, kid, before[kid], r.oldKek)
  {
    NewKeysKeepKids(r, listedKeys);
    AppliedKeyRow(current, NewKeys(r, listedKeys), i);
    NewKeyOpens(r, listedKeys, i, before[listedKeys[i].kid]);
  }

  lemma ListedTokenOpens(
    r: Rotation, keysBefore: Table, before: Outbox, listedKeys: seq<KeyMaterial>, listedTokens: seq<StoredToken>,
    current: Outbox, now: int, i: nat)
    requires CanApply(r, keysBefore, before, listedKeys, listedTokens)
    requires i < |listedTokens| && listedTokens[i].id in current
    requires before[listedTokens[i].id].metadata == current[listedTokens[i].id].metadata
    ensures var id, after := listedTokens[i].id, AppliedTokens(current, NewTokens(r, |listedKeys|, listedTokens), now);
      && id in after && after[id].HasToken()
      && after[id] == current[id].(ciphertext := after[id].ciphertext, nonce := after[id].nonce, updatedAt := now)
      && DeliveryToken(r.cipher, before[id], r.oldKek).Some?
      && DeliveryToken(r.cipher, after[id], r.newKek) == DeliveryToken(r.cipher, before[id], r.oldKek)
  {
    NewTokensKeepIds(r, |listedKeys|, listedTokens);
    AppliedTokenRow(current, NewTokens(r, |listedKeys|, listedTokens), now, i);
    NewTokenOpens(r, |listedKeys|, listedTokens, i, before[listedTokens[i].id]);
  }

  /** Whatever became of the key table since it was listed: afterwards each listed
      private key opens under the new key to what it was when listed, all other
      columns are as they had become, and keys that were not listed are as they
      were. */
  lemma RotationKeepsKeys(
    r: Rotation, before: Table, tokensBefore: Outbox, listedKeys: seq<KeyMaterial>, listedTokens: seq<StoredToken>,
    current: Table, kid: string)
    requires CanApply(r, before, tokensBefore, listedKeys, listedTokens) && kid in current
    ensures var after := AppliedKeys(current, NewKeys(r, listedKeys));
      && after.Keys == current.Keys
      && after[kid] == current[kid].(ciphertext := after[kid].ciphertext, nonce := after[kid].nonce)
      && (kid in before && before[kid].ciphertext.Some? && before[kid].nonce.Some? ==>
        && PrivateKey(r.cipher, kid, before[kid], r.oldKek).Some?
        && PrivateKey(r.cipher, kid, after[kid], r.newKek) == PrivateKey(r.cipher, kid, before[kid], r.oldKek))
      && (!(kid in before && before[kid].ciphertext.Some? && before[kid].nonce.Some?) ==> after[kid] == current[kid])
  {
    NewKeysKeepKids(r, listedKeys);
    AppliedKeysRows(current, NewKeys(r, listedKeys));
    if i :| 0 <= i < |listedKeys| && listedKeys[i].kid == kid {
      ListedKeyOpens(r, before, tokensBefore, listedKeys, listedTokens, current, i);
    }
  }

  /** The same for outbox messages. */
  lemma RotationKeepsTokens(
    r: Rotation, keysBefore: Table, before: Outbox, listedKeys: seq<KeyMaterial>, listedTokens: seq<StoredToken>,
    current: Outbox, now: int, id: int)
    requires CanApply(r, keysBefore, before, listedKeys, listedTokens) && id in current
    requires id in before ==> before[id].metadata == current[id].metadata
    ensures var after := AppliedTokens(current, NewTokens(r, |listedKeys|, listedTokens), now);
      && after.Keys == current.Keys
      && after[id].SameMessage(current[id]) && after[id].status == current[id].status
      && (id in before && before[id].HasToken() ==>
        && DeliveryToken(r.cipher, before[id], r.oldKek).Some?
        && DeliveryToken(r.cipher, after[id], r.newKek) == DeliveryToken(r.cipher, before[id], r.oldKek)
        && after[id].HasToken())
      && (!(id in before && before[id].HasToken()) ==> after[id] == current[id])
  {
    NewTokensKeepIds(r, |listedKeys|, listedTokens);
    AppliedTokensRows(current, NewTokens(r, |listedKeys|, listedTokens), now);
    if i :| 0 <= i < |listedTokens| && listedTokens[i].id == id {
      ListedTokenOpens(r, keysBefore, before, listedKeys, listedTokens, current, now, i);
    }
  }

  /** With ensure, rotate and retire steps between listing and writing: the flags
      and dates are those the steps left, and a listed key keeps the secret that
      the steps left it with iff that is the secret that was listed, which is
      so unless a step stored other material under its kid. */
  lemma RotationBesideLifecycle(
    r: Rotation, before: Table, tokensBefore: Outbox, listedKeys: seq<KeyMaterial>, listedTokens: seq<StoredToken>,
    steps: seq<Step>, kid: string)
    requires CanApply(r, before, tokensBefore, listedKeys, listedTokens)
    requires kid in before && before[kid].ciphertext.Some? && before[kid].nonce.Some?
    ensures var current := Run(before, steps);
      var after := AppliedKeys(current, NewKeys(r, listedKeys));
      && kid in after && kid in current
      && after[kid].signingActive == current[kid].signingActive && after[kid].retiredAt == current[kid].retiredAt
      && (PrivateKey(r.cipher, kid, after[kid], r.newKek) == PrivateKey(r.cipher, kid, current[kid], r.oldKek)
          <==> PrivateKey(r.cipher, kid, before[kid], r.oldKek) == PrivateKey(r.cipher, kid, current[kid], r.oldKek))
      && ((forall step :: step in steps && step.Upsert? ==> step.key.kid != kid)
           ==> PrivateKey(r.cipher, kid, after[kid], r.newKek) == PrivateKey(r.cipher, kid, current[kid], r.oldKek))
  {
    RowsStay(before, steps, kid);
    RotationKeepsKeys(r, before, tokensBefore, listedKeys, listedTokens, Run(before, steps), kid);
  }

  /** Such a step: other material stored under a listed kid is overwritten.  It
      opens under the old key before the rotation writes, and what is there
      afterwards does not open to it under the new one. */
  lemma StoredBetweenIsOverwritten(
    r: Rotation, before: Table, tokensBefore: Outbox, listedKeys: seq<KeyMaterial>, listedTokens: seq<StoredToken>,
    key: KeyMaterial, other: string)
    requires CanApply(r, before, tokensBefore, listedKeys, listedTokens)
    requires key.kid in before && before[key.kid].ciphertext.Some? && before[key.kid].nonce.Some?
    requires Some(other) != PrivateKey(r.cipher, key.kid, before[key.kid], r.oldKek)
    requires |key.nonce| == NONCE_LENGTH
    requires EncryptedSecret(key.ciphertext, key.nonce)
          == EncryptSecret(r.cipher, other, r.oldKek, SigningKeyAad(key.kid), key.nonce)
    ensures var current := Run(before, [Upsert(key)]);
      var after := AppliedKeys(current, NewKeys(r, listedKeys));
      && key.kid in current && key.kid in after
      && PrivateKey(r.cipher, key.kid, current[key.kid], r.oldKek) == Some(other)
      && PrivateKey(r.cipher, key.kid, after[key.kid], r.newKek) == PrivateKey(r.cipher, key.kid, before[key.kid], r.oldKek)
      && PrivateKey(r.cipher, key.kid, after[key.kid], r.newKek) != Some(other)
  {
    var steps := [Upsert(key)];
    assert steps[..0] == [] && Run(before, steps) == Upserted(before, key);
    DecryptUndoesEncrypt(r.cipher, other, r.oldKek, SigningKeyAad(key.kid), key.nonce);
    RotationKeepsKeys(r, before, tokensBefore, listedKeys, listedTokens, Run(before, steps), key.kid);
  }

  lemma {:induction false} RowsStay(keys: Table, steps: seq<Step>, kid: string)
    requires kid in keys
    ensures kid in Run(keys, steps)
    ensures (forall step :: step in steps && step.Upsert? ==> step.key.kid != kid)
      ==> Run(keys, steps)[kid].ciphertext == keys[kid].ciphertext && Run(keys, steps)[kid].nonce == keys[kid].nonce
  {
    if steps != [] {
      RowsStay(keys, steps[..|steps| - 1], kid);
      assert steps[|steps| - 1] in steps;
    }
  }
}
