/** Single-use account tokens: a token is consumed by a guarded UPDATE and the
    account it was issued for is changed by a second one, in one transaction. */
module AccountTokens {
  import opened Wrappers

  datatype TokenKind = EmailVerification | PasswordRecovery | Invitation

  datatype Token = Token(
    organization: int,
    kind: TokenKind,
    user: Option<int>,
    email: string,
    expiresAt: int,
    consumedAt: Option<int>)

  datatype Status = Active | Suspended | Locked

  datatype User = User(
    organization: int,
    email: string,
    passwordHash: Option<string>,
    status: Status,
    emailVerified: bool,
    updatedAt: int)

  datatype Session = Session(user: int, revokedAt: Option<int>)

  datatype Tables = Tables(tokens: map<int, Token>, users: map<int, User>, sessions: map<int, Session>)

  /** The two transactions on a token and a user. */
  datatype Request =
    | VerifyEmail(token: int, user: int, at: int)
    | AcceptInvitation(token: int, user: int, passwordHash: string, emailVerified: bool, revokeSessions: bool, at: int)

  // ---------------------------------------------------------- statements

  function KindOf(request: Request): TokenKind {
    if request.VerifyEmail? then EmailVerification else Invitation
  }

  predicate Unspent(tokens: map<int, Token>, id: int, at: int) {
    id in tokens && tokens[id].consumedAt.None? && tokens[id].expiresAt > at
  }

  /** The first UPDATE's conditions on the token row. */
  predicate TokenMatches(tokens: map<int, Token>, request: Request) {
    && Unspent(tokens, request.token, request.at)
    && tokens[request.token].user == Some(request.user)
    && tokens[request.token].kind == KindOf(request)
  }

  /** Its EXISTS condition on the user row. */
  predicate OwnerMatches(tables: Tables, request: Request) {
    && request.token in tables.tokens && request.user in tables.users
    && var token, user := tables.tokens[request.token], tables.users[request.user];
    && user.organization == token.organization
    && user.email == token.email
    && user.status == Active
    && (request.AcceptInvitation? ==> user.passwordHash.None?)
  }

  /** The second UPDATE's conditions. */
  predicate UserMatches(tables: Tables, request: Request) {
    && request.token in tables.tokens && request.user in tables.users
    && var user := tables.users[request.user];
    && user.status == Active
    && user.email == tables.tokens[request.token].email
    && (request.AcceptInvitation? ==> user.passwordHash.None?)
  }

  function Consume(tokens: map<int, Token>, id: int, at: int): map<int, Token>
    requires id in tokens
  {
    tokens[id := tokens[id].(consumedAt := Some(at))]
  }

  function UpdateUser(users: map<int, User>, request: Request): map<int, User>
    requires request.user in users
  {
    var user := users[request.user];
    users[request.user := match request
      case VerifyEmail(_, _, at) => user.(emailVerified := true, updatedAt := at)
      case AcceptInvitation(_, _, hash, verified, _, at) =>
        user.(passwordHash := Some(hash), emailVerified := verified, updatedAt := at)]
  }

  function RevokeSessions(sessions: map<int, Session>, request: Request): map<int, Session> {
    if request.AcceptInvitation? && request.revokeSessions then
      map id | id in sessions ::
        if sessions[id].user == request.user && sessions[id].revokedAt.None?
        then sessions[id].(revokedAt := Some(request.at)) else sessions[id]
    else sessions
  }

  /** All writes of a successful call. */
  function Applied(tables: Tables, request: Request): Tables
    requires request.token in tables.tokens && request.user in tables.users
  {
    Tables(Consume(tables.tokens, request.token, request.at),
           UpdateUser(tables.users, request),
           RevokeSessions(tables.sessions, request))
  }

  // ------------------------------------------------ the same, by columns

  /** The token is marked as spent at the time of the call, and nothing else
      happens to the tokens. */
  ghost predicate SpendsToken(before: map<int, Token>, request: Request, after: map<int, Token>) {
    && after.Keys == before.Keys && request.token in before
    && (forall id :: id in before && id != request.token ==> after[id] == before[id])
    && var token, was := after[request.token], before[request.token];
    && token.consumedAt == Some(request.at)
    && token.organization == was.organization && token.kind == was.kind && token.user == was.user
    && token.email == was.email && token.expiresAt == was.expiresAt
  }

  /** The user is verified, or has the password and the verification of the
      acceptance, and nothing else happens to the users. */
  ghost predicate ChangesUser(before: map<int, User>, request: Request, after: map<int, User>) {
    && after.Keys == before.Keys && request.user in before
    && (forall id :: id in before && id != request.user ==> after[id] == before[id])
    && var user, was := after[request.user], before[request.user];
    && user.organization == was.organization && user.email == was.email && user.status == was.status
    && user.updatedAt == request.at
    && (request.VerifyEmail? ==> user.emailVerified && user.passwordHash == was.passwordHash)
    && (request.AcceptInvitation? ==>
      user.passwordHash == Some(request.passwordHash) && user.emailVerified == request.emailVerified)
  }

  /** The user's open sessions are revoked if the acceptance asks for it, and
      nothing else happens to the sessions. */
  ghost predicate ChangesSessions(before: map<int, Session>, request: Request, after: map<int, Session>) {
    && after.Keys == before.Keys
    && forall id :: id in before ==>
         && after[id].user == before[id].user
         && after[id].revokedAt ==
            if request.AcceptInvitation? && request.revokeSessions && before[id].user == request.user && before[id].revokedAt == None
            then Some(request.at) else before[id].revokedAt
  }

  ghost predicate HasEffect(before: Tables, request: Request, after: Tables) {
    && SpendsToken(before.tokens, request, after.tokens)
    && ChangesUser(before.users, request, after.users)
    && ChangesSessions(before.sessions, request, after.sessions)
  }

  lemma AppliedHasEffect(tables: Tables, request: Request)
    requires request.token in tables.tokens && request.user in tables.users
    ensures HasEffect(tables, request, Applied(tables, request))
  {
  }

  /** All that a call needs. */
  ghost predicate MaySucceed(tables: Tables, request: Request) {
    && request.token in tables.tokens && request.user in tables.users
    && var token, user := tables.tokens[request.token], tables.users[request.user];
    && token.consumedAt == None && request.at < token.expiresAt
    && token.user == Some(request.user)
    && token.kind == (if request.VerifyEmail? then EmailVerification else Invitation)
    && user.organization == token.organization && user.email == token.email && user.status == Active
    && (request.AcceptInvitation? ==> user.passwordHash == None)
  }

  lemma SucceedsIffMay(tables: Tables, request: Request)
    ensures TokenMatches(tables.tokens, request) && OwnerMatches(tables, request) <==> MaySucceed(tables, request)
  {
  }

  // ------------------------------------------------ one call, undisturbed

  class AccountStore {
    var tokens: map<int, Token>
    var users: map<int, User>
    var sessions: map<int, Session>

    function Contents(): Tables
      reads this
    {
      Tables(tokens, users, sessions)
    }

    constructor (tables: Tables)
      ensures Contents() == tables
    {
      tokens, users, sessions := tables.tokens, tables.users, tables.sessions;
    }

    method ConsumeAccountToken(id: int, at: int) returns (consumed: bool)
      modifies this`tokens
      ensures consumed <==> Unspent(old(tokens), id, at)
      ensures consumed ==> tokens == old(tokens)[id := old(tokens)[id].(consumedAt := Some(at))]
      ensures !consumed ==> tokens == old(tokens)
    {
      consumed := Unspent(tokens, id, at);
      if consumed {
        tokens := Consume(tokens, id, at);
      }
    }

    /** Both `consume_account_token_and_set_user_...` transactions. */
    method ConsumeAccountTokenAndUpdateUser(request: Request) returns (done: bool)
      modifies this
      ensures done <==> MaySucceed(old(Contents()), request)
      ensures done ==> HasEffect(old(Contents()), request, Contents())
      ensures Contents() == if done then Applied(old(Contents()), request) else old(Contents())
    {
      SucceedsIffMay(Contents(), request);
      if request.token in tokens && request.user in users {
        AppliedHasEffect(Contents(), request);
      }
      var before := tokens;
      done := TokenMatches(tokens, request) && OwnerMatches(Contents(), request);
      if done {
        tokens := Consume(tokens, request.token, request.at);
        done := UserMatches(Contents(), request);
      }
      if done {
        users := UpdateUser(users, request);
        sessions := RevokeSessions(sessions, request);
      } else {
        tokens := before;
      }
    }
  }

  // ------------------------------------------------------ interleavings

  /** After `OwnerRead` the transaction has evaluated EXISTS on a snapshot that
      may be out of date by the time it gets the token row. */
  datatype Phase = Begun | OwnerRead | TokenConsumed | UserUpdated | Refused

  datatype Transaction = Transaction(request: Request, phase: Phase)

  /** What has been committed: the calls that returned true, oldest first. */
  datatype Success = Call(request: Request) | Plain(token: int, at: int)

  datatype State = State(
    tables: Tables,
    tokenLocks: map<int, int>,
    userLocks: map<int, int>,
    running: map<int, Transaction>,
    log: seq<Success>)

  datatype Step =
    | Begin(tx: int, request: Request)
    | ReadOwner(tx: int)
    | ConsumeToken(tx: int)
    | ChangeAccount(tx: int)
    | Commit(tx: int)
    | Rollback(tx: int)
    | ConsumePlain(token: int, at: int)
    | IssueToken(id: int, issued: Token)
    | WriteUser(id: int, user: User)
    | WriteSession(id: int, session: Session)

  function Release(locks: map<int, int>, tx: int): map<int, int> {
    map row | row in locks && locks[row] != tx :: locks[row]
  }

  function SetPhase(s: State, tx: int, phase: Phase): State
    requires tx in s.running
  {
    s.(running := s.running[tx := s.running[tx].(phase := phase)])
  }

  predicate Is(s: State, tx: int, phase: Phase) {
    tx in s.running && s.running[tx].phase == phase
  }

  /** One statement; `None` when it waits or does not apply.  `Rollback` ends a
      call that returned false, and any other call that is given up.  Other
      sessions write users and sessions as they like, except that nothing clears
      a password. */
  function Next(s: State, step: Step): Option<State> {
    match step
    case Begin(tx, request) =>
      if tx in s.running then None
      else Some(s.(running := s.running[tx := Transaction(request, Begun)]))
    case ReadOwner(tx) =>
      if !Is(s, tx, Begun) then None
      else Some(SetPhase(s, tx, if OwnerMatches(s.tables, s.running[tx].request) then OwnerRead else Refused))
    case ConsumeToken(tx) =>
      if !Is(s, tx, OwnerRead) then None
      else
        var request := s.running[tx].request;
        if !TokenMatches(s.tables.tokens, request) then Some(SetPhase(s, tx, Refused))
        else if request.token in s.tokenLocks then None
        else Some(SetPhase(s, tx, TokenConsumed).(tokenLocks := s.tokenLocks[request.token := tx]))
    case ChangeAccount(tx) =>
      if !Is(s, tx, TokenConsumed) then None
      else
        var request := s.running[tx].request;
        if !UserMatches(s.tables, request) then Some(SetPhase(s, tx, Refused))
        else if request.user in s.userLocks then None
        else Some(SetPhase(s, tx, UserUpdated).(userLocks := s.userLocks[request.user := tx]))
    case Commit(tx) =>
      if !Is(s, tx, UserUpdated) then None
      else
        var request := s.running[tx].request;
        if request.token !in s.tables.tokens || request.user !in s.tables.users then None
        else Some(State(Applied(s.tables, request), Release(s.tokenLocks, tx), Release(s.userLocks, tx),
                        s.running - {tx}, s.log + [Call(request)]))
    case Rollback(tx) =>
      if tx !in s.running then None
      else Some(s.(tokenLocks := Release(s.tokenLocks, tx), userLocks := Release(s.userLocks, tx), running := s.running - {tx}))
    case ConsumePlain(id, at) =>
      if !Unspent(s.tables.tokens, id, at) || id in s.tokenLocks then None
      else Some(s.(tables := s.tables.(tokens := Consume(s.tables.tokens, id, at)), log := s.log + [Plain(id, at)]))
    case IssueToken(id, token) =>
      if id in s.tables.tokens then None
      else Some(s.(tables := s.tables.(tokens := s.tables.tokens[id := token])))
    case WriteUser(id, user) =>
      if id in s.userLocks
         || (id in s.tables.users && s.tables.users[id].passwordHash.Some? && user.passwordHash.None?) then None
      else Some(s.(tables := s.tables.(users := s.tables.users[id := user])))
    case WriteSession(id, session) =>
      Some(s.(tables := s.tables.(sessions := s.tables.sessions[id := session])))
  }

  function Run(s: State, steps: seq<Step>): Option<State> {
    if steps == [] then Some(s)
    else
      var before := Run(s, steps[..|steps| - 1]);
      if before.None? then None else Next(before.value, steps[|steps| - 1])
  }

  function Start(tables: Tables): State {
    State(tables, map[], map[], map[], [])
  }

  // --------------------------------------------------------------- safety

  function TokenOf(success: Success): int {
    match success
    case Call(request) => request.token
    case Plain(token, _) => token
  }

  function AtOf(success: Success): int {
    match success
    case Call(request) => request.at
    case Plain(_, at) => at
  }

  /** Every token was consumed by at most one success, in time, and says so. */
  ghost predicate SingleUse(tables: Tables, log: seq<Success>) {
    && (forall i :: 0 <= i < |log| ==>
         && TokenOf(log[i]) in tables.tokens
         && tables.tokens[TokenOf(log[i])].consumedAt == Some(AtOf(log[i]))
         && AtOf(log[i]) < tables.tokens[TokenOf(log[i])].expiresAt)
    && (forall i, j :: 0 <= i < j < |log| ==> TokenOf(log[i]) != TokenOf(log[j]))
  }

  predicate Accepts(success: Success, user: int) {
    success.Call? && success.request.AcceptInvitation? && success.request.user == user
  }

  /** No user has accepted twice, and who has accepted has a password. */
  ghost predicate SingleAccept(tables: Tables, log: seq<Success>) {
    && (forall i, user :: 0 <= i < |log| && Accepts(log[i], user)
         ==> user in tables.users && tables.users[user].passwordHash.Some?)
    && (forall i, j, user :: 0 <= i < j < |log| ==> !(Accepts(log[i], user) && Accepts(log[j], user)))
  }

  predicate HoldsToken(t: Transaction) {
    t.phase == TokenConsumed || t.phase == UserUpdated
  }

  /** What a transaction relies on until it commits: its rows are locked, and the
      conditions it tested still hold. */
  ghost predicate TokensHeld(s: State) {
    forall tx :: tx in s.running && HoldsToken(s.running[tx]) ==>
      && s.running[tx].request.token in s.tokenLocks && s.tokenLocks[s.running[tx].request.token] == tx
      && TokenMatches(s.tables.tokens, s.running[tx].request)
  }

  ghost predicate UsersHeld(s: State) {
    forall tx :: tx in s.running && s.running[tx].phase == UserUpdated ==>
      && s.running[tx].request.user in s.userLocks && s.userLocks[s.running[tx].request.user] == tx
      && UserMatches(s.tables, s.running[tx].request)
  }

  ghost predicate Locks(s: State) {
    TokensHeld(s) && UsersHeld(s)
  }

  ghost predicate Inv(s: State) {
    Locks(s) && SingleUse(s.tables, s.log) && SingleAccept(s.tables, s.log)
  }

  lemma StepKeepsTokensHeld(s: State, step: Step)
    requires TokensHeld(s) && Next(s, step).Some?
    ensures TokensHeld(Next(s, step).value)
  {
  }

  lemma StepKeepsUsersHeld(s: State, step: Step)
    requires Locks(s) && Next(s, step).Some?
    ensures UsersHeld(Next(s, step).value)
  {
  }

  lemma StepKeepsSingleUse(s: State, step: Step)
    requires Locks(s) && SingleUse(s.tables, s.log) && Next(s, step).Some?
    ensures SingleUse(Next(s, step).value.tables, Next(s, step).value.log)
  {
  }

  lemma StepKeepsSingleAccept(s: State, step: Step)
    requires Locks(s) && SingleAccept(s.tables, s.log) && Next(s, step).Some?
    ensures SingleAccept(Next(s, step).value.tables, Next(s, step).value.log)
  {
  }

  lemma {:induction false} RunKeepsInv(s: State, steps: seq<Step>)
    requires Inv(s) && Run(s, steps).Some?
    ensures Inv(Run(s, steps).value)
  {
    if steps != [] {
      var n := |steps| - 1;
      RunKeepsInv(s, steps[..n]);
      var before := Run(s, steps[..n]).value;
      StepKeepsTokensHeld(before, steps[n]);
      StepKeepsUsersHeld(before, steps[n]);
      StepKeepsSingleUse(before, steps[n]);
      StepKeepsSingleAccept(before, steps[n]);
    }
  }

  /** In every interleaving, each token is consumed by at most one call that
      returns true, strictly before it expires, and each user accepts at most one
      invitation, however many there are. */
  lemma TokensAreSingleUse(tables: Tables, steps: seq<Step>)
    requires Run(Start(tables), steps).Some?
    ensures var end := Run(Start(tables), steps).value;
      SingleUse(end.tables, end.log) && SingleAccept(end.tables, end.log)
  {
    RunKeepsInv(Start(tables), steps);
  }

  /** The account that a commit changes is, at that moment, still active, still
      has the token's address and, for an invitation, still has no password,
      whatever was written since the first UPDATE looked. */
  lemma CommitMeetsConditions(tables: Tables, steps: seq<Step>, tx: int)
    requires Run(Start(tables), steps).Some? && Next(Run(Start(tables), steps).value, Commit(tx)).Some?
    ensures var s := Run(Start(tables), steps).value;
      var request := s.running[tx].request;
      && TokenMatches(s.tables.tokens, request) && UserMatches(s.tables, request)
      && var token, user := s.tables.tokens[request.token], s.tables.users[request.user];
      && token.consumedAt == None && request.at < token.expiresAt && token.user == Some(request.user)
      && user.status == Active && user.email == token.email
      && (request.AcceptInvitation? ==> user.passwordHash == None)
  {
    RunKeepsInv(Start(tables), steps);
  }

  /** In every interleaving a commit has exactly the effect of its call on what it
      finds, and no other step of a call touches the tables. */
  lemma OnlyCommitHasEffect(s: State, step: Step, tx: int)
    requires Next(s, step).Some? && Belongs(step, tx)
    ensures step.Commit? ==> HasEffect(s.tables, s.running[tx].request, Next(s, step).value.tables)
    ensures !step.Commit? ==> Next(s, step).value.tables == s.tables
  {
    if step.Commit? {
      AppliedHasEffect(s.tables, s.running[tx].request);
    }
  }

  // ------------------------------------------------------ a call by itself

  /** The statements of one call that goes through. */
  function Statements(tx: int, request: Request): seq<Step> {
    [Begin(tx, request), ReadOwner(tx), ConsumeToken(tx), ChangeAccount(tx), Commit(tx)]
  }

  /** The run goes on by one statement, or stops. */
  lemma RunStep(s: State, steps: seq<Step>, k: nat)
    requires k < |steps|
    ensures Run(s, steps[..k + 1]) == if Run(s, steps[..k]).None? then None else Next(Run(s, steps[..k]).value, steps[k])
  {
    assert steps[..k + 1][..k] == steps[..k];
  }

  /** The state of the call alone after its first `k` statements. */
  ghost predicate CallAt(s: State, tx: int, request: Request, k: nat, phase: Phase) {
    && k <= 5 && Run(s, Statements(tx, request)[..k]).Some?
    && var at := Run(s, Statements(tx, request)[..k]).value;
    && at.tables == s.tables && at.log == s.log && tx in at.running && at.running[tx] == Transaction(request, phase)
    && (forall row :: row in at.tokenLocks ==> row in s.tokenLocks || (row == request.token && phase != Begun && phase != OwnerRead))
    && (forall row :: row in at.userLocks ==> row in s.userLocks || (row == request.user && phase == UserUpdated))
  }

  lemma CallReadsOwner(s: State, tx: int, request: Request)
    requires tx !in s.running
    ensures CallAt(s, tx, request, 2, if OwnerMatches(s.tables, request) then OwnerRead else Refused)
  {
    var steps := Statements(tx, request);
    assert steps[..0] == [];
    RunStep(s, steps, 0);
    RunStep(s, steps, 1);
  }

  lemma CallGoesThrough(s: State, tx: int, request: Request)
    requires tx !in s.running && request.token !in s.tokenLocks && request.user !in s.userLocks
    requires OwnerMatches(s.tables, request) && TokenMatches(s.tables.tokens, request)
    ensures CallAt(s, tx, request, 4, UserUpdated)
  {
    CallReadsOwner(s, tx, request);
    RunStep(s, Statements(tx, request), 2);
    assert CallAt(s, tx, request, 3, TokenConsumed);
    RunStep(s, Statements(tx, request), 3);
  }

  lemma NoOwner(s: State, tx: int, request: Request)
    requires tx !in s.running && !OwnerMatches(s.tables, request)
    ensures Run(s, Statements(tx, request)[..3]).None?
  {
    CallReadsOwner(s, tx, request);
    RunStep(s, Statements(tx, request), 2);
  }

  lemma NoToken(s: State, tx: int, request: Request)
    requires tx !in s.running && OwnerMatches(s.tables, request) && !TokenMatches(s.tables.tokens, request)
    ensures CallAt(s, tx, request, 3, Refused)
  {
    CallReadsOwner(s, tx, request);
    RunStep(s, Statements(tx, request), 2);
  }

  lemma CallIsRefused(s: State, tx: int, request: Request)
    requires tx !in s.running
    requires !(OwnerMatches(s.tables, request) && TokenMatches(s.tables.tokens, request))
    ensures Run(s, Statements(tx, request)[..4]).None?
  {
    RunStep(s, Statements(tx, request), 3);
    if OwnerMatches(s.tables, request) {
      NoToken(s, tx, request);
    } else {
      NoOwner(s, tx, request);
    }
  }

  /** Undisturbed, the statements go through iff the method succeeds, and have the
      effect that it states. */
  lemma AloneIsApplied(s: State, tx: int, request: Request)
    requires tx !in s.running && request.token !in s.tokenLocks && request.user !in s.userLocks
    ensures var end := Run(s, Statements(tx, request));
      && (end.Some? <==> MaySucceed(s.tables, request))
      && (end.Some? ==>
        && HasEffect(s.tables, request, end.value.tables)
        && end.value.tables == Applied(s.tables, request) && end.value.log == s.log + [Call(request)])
  {
    SucceedsIffMay(s.tables, request);
    var steps := Statements(tx, request);
    assert steps[..5] == steps;
    RunStep(s, steps, 4);
    if MaySucceed(s.tables, request) {
      AppliedHasEffect(s.tables, request);
      CallGoesThrough(s, tx, request);
    } else {
      CallIsRefused(s, tx, request);
    }
  }

  // ----------------------------------------------- calls that return false

  predicate Belongs(step: Step, tx: int) {
    (step.Begin? || step.ReadOwner? || step.ConsumeToken? || step.ChangeAccount? || step.Commit? || step.Rollback?)
    && step.tx == tx
  }

  function WithoutSteps(steps: seq<Step>, tx: int): seq<Step> {
    if steps == [] then []
    else
      var last := steps[|steps| - 1];
      WithoutSteps(steps[..|steps| - 1], tx) + if Belongs(last, tx) then [] else [last]
  }

  function WithoutTx(s: State, tx: int): State {
    s.(tokenLocks := Release(s.tokenLocks, tx), userLocks := Release(s.userLocks, tx), running := s.running - {tx})
  }

  lemma OtherStepUnaffected(s: State, step: Step, tx: int)
    requires Next(s, step).Some? && !Belongs(step, tx)
    ensures Next(WithoutTx(s, tx), step) == Some(WithoutTx(Next(s, step).value, tx))
  {
    match step {
      case Commit(other) => OtherEndUnaffected(s, step, tx);
      case Rollback(other) => OtherEndUnaffected(s, step, tx);
      case ConsumeToken(other) => OtherConsumeUnaffected(s, step, tx);
      case ChangeAccount(other) => OtherChangeUnaffected(s, step, tx);
      case _ =>
        var here, there := Next(WithoutTx(s, tx), step), WithoutTx(Next(s, step).value, tx);
        assert here.Some? && here.value.running == there.running;
    }
  }

  lemma OtherEndUnaffected(s: State, step: Step, tx: int)
    requires Next(s, step).Some? && (step.Commit? || step.Rollback?) && step.tx != tx
    ensures Next(WithoutTx(s, tx), step) == Some(WithoutTx(Next(s, step).value, tx))
  {
    ReleaseBoth(s.tokenLocks, tx, step.tx);
    ReleaseBoth(s.userLocks, tx, step.tx);
    assert s.running - {tx} - {step.tx} == s.running - {step.tx} - {tx};
  }

  lemma ReleaseBoth(locks: map<int, int>, a: int, b: int)
    ensures Release(Release(locks, a), b) == Release(Release(locks, b), a)
  {
  }

  lemma PhaseUnaffected(s: State, other: int, phase: Phase, tx: int)
    requires other in s.running && other != tx
    ensures SetPhase(WithoutTx(s, tx), other, phase) == WithoutTx(SetPhase(s, other, phase), tx)
  {
    assert (s.running - {tx})[other := s.running[other].(phase := phase)]
        == s.running[other := s.running[other].(phase := phase)] - {tx};
  }

  lemma LockUnaffected(locks: map<int, int>, row: int, other: int, tx: int)
    requires other != tx && row !in locks
    ensures Release(locks[row := other], tx) == Release(locks, tx)[row := other]
  {
  }

  lemma OtherConsumeUnaffected(s: State, step: Step, tx: int)
    requires Next(s, step).Some? && step.ConsumeToken? && step.tx != tx
    ensures Next(WithoutTx(s, tx), step) == Some(WithoutTx(Next(s, step).value, tx))
  {
    var request := s.running[step.tx].request;
    if TokenMatches(s.tables.tokens, request) {
      LockUnaffected(s.tokenLocks, request.token, step.tx, tx);
      PhaseUnaffected(s, step.tx, TokenConsumed, tx);
    } else {
      PhaseUnaffected(s, step.tx, Refused, tx);
    }
  }

  lemma OtherChangeUnaffected(s: State, step: Step, tx: int)
    requires Next(s, step).Some? && step.ChangeAccount? && step.tx != tx
    ensures Next(WithoutTx(s, tx), step) == Some(WithoutTx(Next(s, step).value, tx))
  {
    var request := s.running[step.tx].request;
    if UserMatches(s.tables, request) {
      LockUnaffected(s.userLocks, request.user, step.tx, tx);
      PhaseUnaffected(s, step.tx, UserUpdated, tx);
    } else {
      PhaseUnaffected(s, step.tx, Refused, tx);
    }
  }

  lemma OwnStepLeavesNoTrace(s: State, step: Step, tx: int)
    requires Next(s, step).Some? && Belongs(step, tx) && !step.Commit?
    ensures WithoutTx(Next(s, step).value, tx) == WithoutTx(s, tx)
  {
    var here, there := WithoutTx(Next(s, step).value, tx), WithoutTx(s, tx);
    match step {
      case ConsumeToken(_) => assert here.tokenLocks == there.tokenLocks && here.running == there.running;
      case ChangeAccount(_) => assert here.userLocks == there.userLocks && here.running == there.running;
      case _ => assert here.running == there.running;
    }
  }

  /** A call that does not commit, as one that returns false does not, might as
      well not have been made: the same run without its statements is possible
      and leaves the same tables and the same successes. */
  lemma {:induction false} FailedCallLeavesNoTrace(tables: Tables, steps: seq<Step>, tx: int)
    requires Run(Start(tables), steps).Some? && Commit(tx) !in steps
    ensures Run(Start(tables), WithoutSteps(steps, tx)) == Some(WithoutTx(Run(Start(tables), steps).value, tx))
  {
    if steps == [] {
      assert WithoutTx(Start(tables), tx) == Start(tables);
    } else {
      var n := |steps| - 1;
      var before := Run(Start(tables), steps[..n]).value;
      FailedCallLeavesNoTrace(tables, steps[..n], tx);
      if Belongs(steps[n], tx) {
        OwnStepLeavesNoTrace(before, steps[n], tx);
        assert WithoutSteps(steps, tx) == WithoutSteps(steps[..n], tx);
      } else {
        OtherStepUnaffected(before, steps[n], tx);
        assert WithoutSteps(steps, tx)[..|WithoutSteps(steps, tx)| - 1] == WithoutSteps(steps[..n], tx);
      }
    }
  }
}
