/** The signing-key table, the operator's steps on it, and the key set it makes
    public. */
module SigningKeys {
  import opened Wrappers
  import opened Utf8

  type Bytes = seq<Byte>

  /** A public key as published; `parameters` stands for its modulus and exponent. */
  datatype Jwk = Jwk(kid: string, parameters: string)

  /** A row of `signing_keys`, keyed by kid. */
  datatype KeyRow = KeyRow(
    algorithm: string,
    publicJwk: Jwk,
    ciphertext: Option<Bytes>,
    nonce: Option<Bytes>,
    signingActive: bool,
    createdAt: int,
    retiredAt: Option<int>)

  /** A key with its encrypted private part, as callers hold it. */
  datatype KeyMaterial = KeyMaterial(
    kid: string,
    algorithm: string,
    publicJwk: Jwk,
    ciphertext: Bytes,
    nonce: Bytes,
    signingActive: bool,
    createdAt: int,
    retiredAt: Option<int>)
  {
    function Row(): KeyRow {
      KeyRow(algorithm, publicJwk, Some(ciphertext), Some(nonce), signingActive, createdAt, retiredAt)
    }
  }

  type Table = map<string, KeyRow>

  // ---------------------------------------------------------- statements

  function Deactivated(keys: Table): Table {
    map kid | kid in keys :: keys[kid].(signingActive := false)
  }

  function Upserted(keys: Table, key: KeyMaterial): Table {
    (if key.signingActive then Deactivated(keys) else keys)[key.kid := key.Row()]
  }

  predicate CanRetire(keys: Table, kid: string) {
    kid in keys && keys[kid].retiredAt.None?
  }

  function Retired(keys: Table, kid: string, at: int): Table {
    if CanRetire(keys, kid) then keys[kid := keys[kid].(retiredAt := Some(at), signingActive := false)] else keys
  }

  /** The WHERE clause of `active_signing_key`. */
  predicate Signs(row: KeyRow) {
    row.signingActive && row.retiredAt.None? && row.ciphertext.Some? && row.nonce.Some?
  }

  function Signers(keys: Table): set<string> {
    set kid | kid in keys && Signs(keys[kid])
  }

  /** The WHERE clause of `active_jwks`. */
  function Unretired(keys: Table): set<string> {
    set kid | kid in keys && keys[kid].retiredAt.None?
  }

  /** ORDER BY signing_active DESC, created_at DESC. */
  predicate ListedBefore(a: KeyRow, b: KeyRow) {
    (a.signingActive && !b.signingActive) || (a.signingActive == b.signingActive && a.createdAt >= b.createdAt)
  }

  /** An answer to `active_jwks`; rows that compare equal come in any order. */
  ghost predicate IsActiveJwks(keys: Table, kids: seq<string>) {
    && (forall kid :: kid in kids <==> kid in Unretired(keys))
    && (forall i, j :: 0 <= i < j < |kids| ==> kids[i] != kids[j])
    && (forall i, j :: 0 <= i < j < |kids| && kids[i] in keys && kids[j] in keys ==> ListedBefore(keys[kids[i]], keys[kids[j]]))
  }

  /** An answer to `active_signing_key`: the latest signer. */
  ghost predicate IsActiveSigningKey(keys: Table, answer: Option<string>) {
    match answer
    case None => Signers(keys) == {}
    case Some(kid) => IsLatest(keys, Signers(keys), kid)
  }

  predicate IsLatest(keys: Table, kids: set<string>, kid: string)
    requires kids <= keys.Keys
  {
    kid in kids && forall other :: other in kids ==> keys[other].createdAt <= keys[kid].createdAt
  }

  lemma LatestExists(keys: Table, kids: set<string>)
    requires kids <= keys.Keys && kids != {}
    ensures exists kid :: IsLatest(keys, kids, kid)
  {
    var kid :| kid in kids;
    if kids == {kid} {
      assert IsLatest(keys, kids, kid);
    } else {
      LatestExists(keys, kids - {kid});
      var latest :| IsLatest(keys, kids - {kid}, latest);
      assert IsLatest(keys, kids, if keys[latest].createdAt <= keys[kid].createdAt then kid else latest);
    }
  }

  /** `jwk_set_from_sources`: the database's keys, or else the configured one. */
  function PublishedJwks(keys: Table, listed: seq<string>, configured: Option<Jwk>): (jwks: seq<Jwk>)
    requires forall kid :: kid in listed ==> kid in keys
  {
    if listed != [] then seq(|listed|, i requires 0 <= i < |listed| => keys[listed[i]].publicJwk)
    else if configured.Some? then [configured.value]
    else []
  }

  // ------------------------------------------------------------ the store

  class SigningKeyStore {
    var keys: Table

    constructor ()
      ensures keys == map[]
    {
      keys := map[];
    }

    method UpsertSigningKeyMaterial(key: KeyMaterial)
      modifies this
      ensures keys == Upserted(old(keys), key)
    {
      if key.signingActive {
        keys := map kid | kid in keys :: keys[kid].(signingActive := false);
      }
      keys := keys[key.kid := key.Row()];
    }

    method RetireSigningKey(kid: string, at: int) returns (retired: bool)
      modifies this
      ensures retired <==> CanRetire(old(keys), kid)
      ensures keys == Retired(old(keys), kid, at)
    {
      retired := kid in keys && keys[kid].retiredAt.None?;
      if retired {
        keys := keys[kid := keys[kid].(retiredAt := Some(at), signingActive := false)];
      }
    }

    method ActiveSigningKey() returns (answer: Option<string>)
      ensures IsActiveSigningKey(keys, answer)
    {
      if Signers(keys) == {} {
        return None;
      }
      LatestExists(keys, Signers(keys));
      var kid :| IsLatest(keys, Signers(keys), kid);
      return Some(kid);
    }

    /** The key import or generation is the caller's; the production check on
        the configuration comes before it. */
    method EnsureStartupSigningKey(config: Config, candidate: KeyMaterial) returns (r: Result<(), ConfigError>)
      requires candidate.signingActive && candidate.retiredAt.None?
      modifies this
      ensures r.Err? <==> config.production && !config.hasKeyEncryptionKey && !config.hasStaticSigning
      ensures keys == if r.Ok? && config.hasKeyEncryptionKey && Signers(old(keys)) == {} then Upserted(old(keys), candidate) else old(keys)
      ensures r.Ok? && config.hasKeyEncryptionKey ==> Signers(keys) != {}
    {
      if !config.hasKeyEncryptionKey && !config.hasStaticSigning && config.production {
        return Err(MissingSigningSource);
      }
      if !config.hasKeyEncryptionKey {
        return Ok(());
      }
      var active := ActiveSigningKey();
      if active.Some? {
        return Ok(());
      }
      UpsertSigningKeyMaterial(candidate);
      assert candidate.kid in Signers(keys);
      return Ok(());
    }
  }

  datatype Config = Config(production: bool, hasKeyEncryptionKey: bool, hasStaticSigning: bool)

  datatype ConfigError = MissingSigningSource

  // ------------------------------------------------------------ lifecycle

  /** One transaction or query of any process.  `Upsert` is the write of an
      ensure or a rotate, whose key material is always active and unretired;
      two ensures may both have found no active key. */
  datatype Step =
    | Upsert(key: KeyMaterial)
    | Retire(kid: string, at: int)

  predicate IsEncryptedKey(key: KeyMaterial) {
    key.signingActive && key.retiredAt.None?
  }

  predicate Lawful(steps: seq<Step>) {
    forall step :: step in steps && step.Upsert? ==> IsEncryptedKey(step.key)
  }

  function Next(keys: Table, step: Step): Table {
    match step
    case Upsert(key) => Upserted(keys, key)
    case Retire(kid, at) => Retired(keys, kid, at)
  }

  function Run(keys: Table, steps: seq<Step>): Table {
    if steps == [] then keys
    else Next(Run(keys, steps[..|steps| - 1]), steps[|steps| - 1])
  }

  /** At most one key signs, and it is not retired. */
  ghost predicate OneSigner(keys: Table) {
    && (forall a, b :: a in keys && b in keys && keys[a].signingActive && keys[b].signingActive ==> a == b)
    && (forall kid :: kid in keys && keys[kid].signingActive ==> keys[kid].retiredAt.None?)
  }

  lemma {:induction false} RunKeepsOneSigner(keys: Table, steps: seq<Step>)
    requires OneSigner(keys) && Lawful(steps)
    ensures OneSigner(Run(keys, steps))
  {
    if steps != [] {
      RunKeepsOneSigner(keys, steps[..|steps| - 1]);
      assert steps[|steps| - 1] in steps;
    }
  }

  lemma {:induction false} UnretiredUntilNamed(keys: Table, steps: seq<Step>, kid: string)
    requires Lawful(steps) && kid in Unretired(keys)
    requires forall step :: step in steps && step.Retire? ==> step.kid != kid
    ensures kid in Unretired(Run(keys, steps))
  {
    if steps != [] {
      UnretiredUntilNamed(keys, steps[..|steps| - 1], kid);
      assert steps[|steps| - 1] in steps;
    }
  }

  /** Every stored public key carries the kid of its row, if the upserted ones do. */
  lemma {:induction false} RunKeepsOwnKids(keys: Table, steps: seq<Step>)
    requires forall kid :: kid in keys ==> keys[kid].publicJwk.kid == kid
    requires forall step :: step in steps && step.Upsert? ==> step.key.publicJwk.kid == step.key.kid
    ensures forall kid :: kid in Run(keys, steps) ==> Run(keys, steps)[kid].publicJwk.kid == kid
  {
    if steps != [] {
      RunKeepsOwnKids(keys, steps[..|steps| - 1]);
      assert steps[|steps| - 1] in steps;
    }
  }

  /** In every state that ensure, rotate and retire reach, at most one key signs;
      `active_signing_key` names it exactly if it has its private part; and a
      kid once named by `active_signing_key` is in every key set published
      later, whatever order the listing chooses, until a retire names it. */
  lemma SignerStaysPublished(before: seq<Step>, after: seq<Step>, kid: string, listed: seq<string>, configured: Option<Jwk>)
    requires Lawful(before) && Lawful(after)
    requires IsActiveSigningKey(Run(map[], before), Some(kid))
    requires forall step :: step in after && step.Retire? ==> step.kid != kid
    requires IsActiveJwks(Run(Run(map[], before), after), listed)
    ensures OneSigner(Run(map[], before)) && Signers(Run(map[], before)) == {kid}
    ensures var keys := Run(Run(map[], before), after);
      && OneSigner(keys)
      && kid in keys
      && keys[kid].publicJwk in PublishedJwks(keys, listed, configured)
      && ((forall step :: step in before + after && step.Upsert? ==> step.key.publicJwk.kid == step.key.kid)
           ==> keys[kid].publicJwk.kid == kid)
  {
    var named := Run(map[], before);
    RunKeepsOneSigner(map[], before);
    RunKeepsOneSigner(named, after);
    UnretiredUntilNamed(named, after, kid);
    var keys := Run(named, after);
    if forall step :: step in before + after && step.Upsert? ==> step.key.publicJwk.kid == step.key.kid {
      assert forall step :: step in before || step in after ==> step in before + after;
      RunKeepsOwnKids(map[], before);
      RunKeepsOwnKids(named, after);
    }
    assert kid in listed;
    var i :| 0 <= i < |listed| && listed[i] == kid;
    assert PublishedJwks(keys, listed, configured)[i] == keys[kid].publicJwk;
  }

  /** While a signer exists, it is published first; the configured key is
      published only when no unretired key is stored. */
  lemma SignerIsPublishedFirst(steps: seq<Step>, listed: seq<string>, configured: Option<Jwk>)
    requires Lawful(steps) && IsActiveJwks(Run(map[], steps), listed)
    ensures var keys := Run(map[], steps);
      && (Signers(keys) != {} ==>
        && listed != [] && listed[0] in Signers(keys)
        && PublishedJwks(keys, listed, configured)[0] == keys[listed[0]].publicJwk)
      && (PublishedJwks(keys, listed, configured) == [] <==> Unretired(keys) == {} && configured.None?)
  {
    var keys := Run(map[], steps);
    RunKeepsOneSigner(map[], steps);
    if Signers(keys) != {} {
      var kid :| kid in Signers(keys);
      assert kid in Unretired(keys);
      assert kid in listed;
      var i :| 0 <= i < |listed| && listed[i] == kid;
      assert listed[0] in listed;
      assert i > 0 ==> ListedBefore(keys[listed[0]], keys[listed[i]]);
    }
    assert listed != [] ==> listed[0] in listed;
  }

  /** A rotation makes the new key the only signer and retires nothing. */
  lemma RotateOnlyAdds(keys: Table, key: KeyMaterial)
    requires IsEncryptedKey(key)
    ensures Signers(Upserted(keys, key)) == {key.kid}
    ensures Unretired(Upserted(keys, key)) == Unretired(keys) + {key.kid}
    ensures forall kid :: kid in keys && kid != key.kid ==> Upserted(keys, key)[kid] == keys[kid].(signingActive := false)
  {
  }

  lemma OnlyKid(listed: seq<string>, kid: string)
    requires forall other :: other in listed <==> other == kid
    requires forall i, j :: 0 <= i < j < |listed| ==> listed[i] != listed[j]
    ensures listed == [kid]
  {
    assert kid in listed;
    assert forall i :: 0 <= i < |listed| ==> listed[i] in listed;
    assert listed[0] == kid == listed[|listed| - 1];
  }

  /** In every reachable state a rotation hands over: from then on the new key is
      the one that signs and the first one published, and every other stored key
      that was published still is, so what was signed before stays verifiable.  A
      configured key that was published for want of a stored one no longer is. */
  lemma RotateHandsOver(
    steps: seq<Step>, key: KeyMaterial, listedBefore: seq<string>, listedAfter: seq<string>, configured: Option<Jwk>)
    requires Lawful(steps) && IsEncryptedKey(key)
    requires IsActiveJwks(Run(map[], steps), listedBefore) && IsActiveJwks(Run(map[], steps + [Upsert(key)]), listedAfter)
    ensures var keys, after := Run(map[], steps), Run(map[], steps + [Upsert(key)]);
      && IsActiveSigningKey(after, Some(key.kid)) && listedAfter != [] && listedAfter[0] == key.kid
      && PublishedJwks(after, listedAfter, configured)[0] == key.publicJwk
      && (forall kid :: kid in listedAfter <==> kid in listedBefore || kid == key.kid)
      && (forall kid :: kid in listedBefore && kid != key.kid ==>
           keys[kid].publicJwk in PublishedJwks(after, listedAfter, configured))
      && (listedBefore == [] ==> PublishedJwks(after, listedAfter, configured) == [key.publicJwk])
  {
    var all := steps + [Upsert(key)];
    assert all[..|all| - 1] == steps;
    var keys, after := Run(map[], steps), Run(map[], all);
    RotateOnlyAdds(keys, key);
    assert forall step :: step in all ==> step in steps || step == Upsert(key);
    SignerIsPublishedFirst(all, listedAfter, configured);
    forall kid | kid in listedBefore && kid != key.kid
      ensures keys[kid].publicJwk in PublishedJwks(after, listedAfter, configured)
    {
      assert kid in listedAfter;
      var i :| 0 <= i < |listedAfter| && listedAfter[i] == kid;
      assert PublishedJwks(after, listedAfter, configured)[i] == keys[kid].publicJwk;
    }
    if listedBefore == [] {
      assert forall kid :: kid in Unretired(keys) ==> kid in listedBefore;
      OnlyKid(listedAfter, key.kid);
    }
  }

  // ------------------------------------------------------------ by columns

  /** Only the columns of `kid` differ. */
  ghost predicate OthersStay(before: Table, after: Table, kid: string) {
    forall other :: other != kid ==> (other in after <==> other in before) && (other in before ==> after[other] == before[other])
  }

  /** A retire of an unretired key: the row is dated and does not sign, its other
      columns and all other rows stay. */
  lemma RetireDatesTheRow(keys: Table, kid: string, at: int)
    requires kid in keys && keys[kid].retiredAt == None
    ensures var after := Next(keys, Retire(kid, at));
      && kid in after && OthersStay(keys, after, kid)
      && var row, was := after[kid], keys[kid];
      && row.retiredAt == Some(at) && !row.signingActive
      && row.algorithm == was.algorithm && row.publicJwk == was.publicJwk && row.createdAt == was.createdAt
      && row.ciphertext == was.ciphertext && row.nonce == was.nonce
  {
  }

  /** Any other retire changes nothing. */
  lemma RetireOfNoneIsNothing(keys: Table, kid: string, at: int)
    requires kid in keys ==> keys[kid].retiredAt != None
    ensures Next(keys, Retire(kid, at)) == keys
  {
  }

  /** An upsert: the row has all columns of the material; an active one leaves no
      other row signing, and nothing else changes. */
  lemma UpsertWritesTheRow(keys: Table, key: KeyMaterial)
    ensures var after := Next(keys, Upsert(key));
      && key.kid in after
      && var row := after[key.kid];
      && row.algorithm == key.algorithm && row.publicJwk == key.publicJwk
      && row.ciphertext == Some(key.ciphertext) && row.nonce == Some(key.nonce)
      && row.signingActive == key.signingActive && row.createdAt == key.createdAt && row.retiredAt == key.retiredAt
      && (!key.signingActive ==> OthersStay(keys, after, key.kid))
      && (forall other :: other != key.kid ==> (other in after <==> other in keys))
      && (key.signingActive ==> forall other :: other in keys && other != key.kid ==>
           after[other] == keys[other].(signingActive := false))
  {
  }

  lemma {:induction false} RetiredStays(keys: Table, steps: seq<Step>, kid: string, at: int)
    requires kid in keys && keys[kid].retiredAt == Some(at) && !keys[kid].signingActive
    requires forall step :: step in steps && step.Upsert? ==> step.key.kid != kid
    ensures var end := Run(keys, steps);
      kid in end && end[kid].retiredAt == Some(at) && !end[kid].signingActive
  {
    if steps != [] {
      RetiredStays(keys, steps[..|steps| - 1], kid, at);
      assert steps[|steps| - 1] in steps;
    }
  }

  /** A retired key is out: until an upsert names it, it keeps its date, it is in no
      published list, and it never signs, whatever else is done. */
  lemma RetiredIsOut(keys: Table, kid: string, at: int, steps: seq<Step>, listed: seq<string>, answer: Option<string>)
    requires kid in keys && keys[kid].retiredAt == None
    requires forall step :: step in steps && step.Upsert? ==> step.key.kid != kid
    requires IsActiveJwks(Run(Next(keys, Retire(kid, at)), steps), listed)
    requires IsActiveSigningKey(Run(Next(keys, Retire(kid, at)), steps), answer)
    ensures var end := Run(Next(keys, Retire(kid, at)), steps);
      kid in end && end[kid].retiredAt == Some(at) && kid !in listed && answer != Some(kid)
  {
    RetireDatesTheRow(keys, kid, at);
    RetiredStays(Next(keys, Retire(kid, at)), steps, kid, at);
  }

  /** What is listed, and in which order: the unretired keys, each once, those that
      sign before those that do not, and the newer before the older. */
  lemma ListedNewestFirst(keys: Table, listed: seq<string>)
    requires IsActiveJwks(keys, listed)
    ensures forall kid :: kid in listed <==> kid in keys && keys[kid].retiredAt == None
    ensures forall i, j :: 0 <= i < j < |listed| ==>
      && listed[i] in keys && listed[j] in keys && listed[i] != listed[j]
      && (keys[listed[j]].signingActive ==> keys[listed[i]].signingActive)
      && (keys[listed[i]].signingActive == keys[listed[j]].signingActive ==> keys[listed[i]].createdAt >= keys[listed[j]].createdAt)
  {
    forall i | 0 <= i < |listed|
      ensures listed[i] in keys
    {
      assert listed[i] in listed;
    }
  }

  /** A row that can sign. */
  predicate CanSign(row: KeyRow) {
    row.signingActive && row.retiredAt == None && row.ciphertext != None && row.nonce != None
  }

  /** The signing key: the newest of the rows that are active and unretired and have
      their private part, or none if there is no such row. */
  lemma SignerByColumns(keys: Table, answer: Option<string>)
    ensures IsActiveSigningKey(keys, answer) <==>
      if answer == None then forall kid :: kid in keys ==> !CanSign(keys[kid])
      else
        && answer.value in keys && CanSign(keys[answer.value])
        && forall other :: other in keys && CanSign(keys[other]) ==> keys[other].createdAt <= keys[answer.value].createdAt
  {
    assert forall kid :: kid in Signers(keys) <==> kid in keys && CanSign(keys[kid]);
  }
}
