/** Logins that announce a new device: the transaction that locks the user row,
    looks for an earlier session of the same request context, inserts the
    session and, for an unknown context, an outbox message. */
module AuthSessions {
  import opened Wrappers

  /** A user row, named by its composite key. */
  datatype UserKey = UserKey(organization: int, user: int)

  /** Nullable columns compared with IS NOT DISTINCT FROM, that is, as options. */
  datatype Context = Context(ipAddress: Option<string>, userAgent: Option<string>) {
    predicate IsIdentifying() {
      ipAddress.Some? || userAgent.Some?
    }
  }

  datatype Session = Session(user: UserKey, context: Context, revokedAt: Option<int>)

  /** An outbox row, with the login it announces. */
  datatype Message = Message(user: UserKey, context: Context)

  /** The arguments of one login; `notification` is the id of the message to
      queue if the context is new. */
  datatype Login = Login(sessionId: int, user: UserKey, context: Context, notification: Option<int>) {
    predicate ChecksContext() {
      context.IsIdentifying() && notification.Some?
    }

    function Row(): Session {
      Session(user, context, None)
    }
  }

  datatype Tables = Tables(users: set<UserKey>, sessions: map<int, Session>, outbox: map<int, Message>)

  predicate KnownContext(sessions: map<int, Session>, login: Login) {
    exists id :: id in sessions && sessions[id].user == login.user && sessions[id].context == login.context
  }

  // ------------------------------------------------ one call, undisturbed

  /** The effect of a login, by columns: its session is stored, open, and its
      message is queued iff it asked for one, it has an address or an agent, and
      no session of the user had the same of both. */
  ghost predicate Created(before: Tables, login: Login, after: Tables, queued: Option<int>) {
    && login.user in before.users
    && after.users == before.users
    && login.sessionId !in before.sessions
    && after.sessions == before.sessions[login.sessionId := Session(login.user, login.context, None)]
    && (queued.Some? <==>
      && login.notification != None
      && (login.context.ipAddress != None || login.context.userAgent != None)
      && forall id :: id in before.sessions ==>
           !(before.sessions[id].user == login.user
             && before.sessions[id].context.ipAddress == login.context.ipAddress
             && before.sessions[id].context.userAgent == login.context.userAgent))
    && (queued.None? ==> after.outbox == before.outbox)
    && (queued.Some? ==>
      && queued == login.notification
      && queued.value !in before.outbox
      && after.outbox == before.outbox[queued.value := Message(login.user, login.context)])
  }

  /** No constraint stands in the way. */
  ghost predicate CanCreate(before: Tables, login: Login) {
    exists after, queued :: Created(before, login, after, queued)
  }

  class AuthSessionStore {
    var users: set<UserKey>
    var sessions: map<int, Session>
    var outbox: map<int, Message>

    function Contents(): Tables
      reads this
    {
      Tables(users, sessions, outbox)
    }

    constructor (known: set<UserKey>)
      ensures Contents() == Tables(known, map[], map[])
    {
      users, sessions, outbox := known, map[], map[];
    }

    /** The insert, with the constraints it can violate. */
    method InsertAuthSession(login: Login) returns (inserted: bool)
      modifies this`sessions
      ensures inserted <==> login.user in users && login.sessionId !in old(sessions)
      ensures sessions == if inserted then old(sessions)[login.sessionId := login.Row()] else old(sessions)
    {
      inserted := login.user in users && login.sessionId !in sessions;
      if inserted {
        sessions := sessions[login.sessionId := login.Row()];
      }
    }

    /** The outer option is the transaction's success, the inner one the id of
        the queued notification. */
    method CreateAuthSessionWithNewContextNotification(login: Login) returns (queued: Option<Option<int>>)
      modifies this
      ensures queued.None? ==> Contents() == old(Contents()) && !CanCreate(Contents(), login)
      ensures queued.Some? ==> Created(old(Contents()), login, Contents(), queued.value)
    {
      var before := Contents();
      var known := true;
      if login.ChecksContext() {
        known := KnownContext(sessions, login);
      }
      var inserted := InsertAuthSession(login);
      if !inserted {
        return None;
      }
      if known {
        return Some(None);
      }
      if login.notification.value in outbox {
        sessions := before.sessions;
        return None;
      }
      outbox := outbox[login.notification.value := Message(login.user, login.context)];
      return Some(login.notification);
    }
  }

  // ------------------------------------------------------ interleavings

  /** How far a transaction has come. */
  datatype Phase = Begun | Locked | Checked(known: bool) | SessionInserted(known: bool) | Ready(notifies: bool)

  datatype Transaction = Transaction(login: Login, phase: Phase)

  /** The committed tables, the holders of the row locks on users, and the
      transactions in flight, whose own writes nobody else sees. */
  datatype State = State(tables: Tables, locks: map<UserKey, int>, running: map<int, Transaction>)

  datatype Step =
    | Begin(tx: int, login: Login)
    | LockUser(tx: int)
    | CheckContext(tx: int)
    | InsertSession(tx: int)
    | QueueNotification(tx: int)
    | Commit(tx: int)
    | Abort(tx: int)
    | InsertDirectly(login: Login)
    | Revoke(sessionId: int, at: int)
    | CreateUser(user: UserKey)

  function Release(locks: map<UserKey, int>, tx: int): map<UserKey, int> {
    map user | user in locks && locks[user] != tx :: locks[user]
  }

  /** One statement of one transaction; `None` when it cannot run now: it waits
      for a lock, fails, or is not the next statement. */
  function Next(s: State, step: Step): Option<State> {
    match step
    case Begin(tx, login) =>
      if tx in s.running then None
      else Some(s.(running := s.running[tx := Transaction(login, Begun)]))
    case LockUser(tx) =>
      if tx !in s.running || s.running[tx].phase != Begun then None
      else
        var login := s.running[tx].login;
        // Without a check there is nothing to lock; and SELECT ... FOR UPDATE
        // that finds no row locks nothing and goes on.
        if !login.ChecksContext() || login.user !in s.tables.users then
          Some(s.(running := s.running[tx := Transaction(login, Locked)]))
        else if login.user in s.locks then None
        else Some(s.(locks := s.locks[login.user := tx], running := s.running[tx := Transaction(login, Locked)]))
    case CheckContext(tx) =>
      if tx !in s.running || s.running[tx].phase != Locked then None
      else
        var login := s.running[tx].login;
        var known := !login.ChecksContext() || KnownContext(s.tables.sessions, login);
        Some(s.(running := s.running[tx := Transaction(login, Checked(known))]))
    case InsertSession(tx) =>
      if tx !in s.running || !s.running[tx].phase.Checked? then None
      else
        var login := s.running[tx].login;
        if login.user !in s.tables.users || login.sessionId in s.tables.sessions then None
        else Some(s.(running := s.running[tx := Transaction(login, SessionInserted(s.running[tx].phase.known))]))
    case QueueNotification(tx) =>
      if tx !in s.running || !s.running[tx].phase.SessionInserted? then None
      else
        var login := s.running[tx].login;
        var notifies := !s.running[tx].phase.known && login.notification.Some?;
        if notifies && login.notification.value in s.tables.outbox then None
        else Some(s.(running := s.running[tx := Transaction(login, Ready(notifies))]))
    case Commit(tx) =>
      if tx !in s.running || !s.running[tx].phase.Ready? then None
      else
        var login := s.running[tx].login;
        var notifies := s.running[tx].phase.notifies;
        // A key that another transaction committed meanwhile fails this one.
        if login.sessionId in s.tables.sessions
           || (notifies && (login.notification.None? || login.notification.value in s.tables.outbox)) then None
        else
          var sessions := s.tables.sessions[login.sessionId := login.Row()];
          var outbox := if notifies
            then s.tables.outbox[login.notification.value := Message(login.user, login.context)]
            else s.tables.outbox;
          Some(State(s.tables.(sessions := sessions, outbox := outbox), Release(s.locks, tx), s.running - {tx}))
    case Abort(tx) =>
      if tx !in s.running then None
      else Some(s.(locks := Release(s.locks, tx), running := s.running - {tx}))
    case InsertDirectly(login) =>
      if login.user !in s.tables.users || login.sessionId in s.tables.sessions then None
      else Some(s.(tables := s.tables.(sessions := s.tables.sessions[login.sessionId := login.Row()])))
    case Revoke(id, at) =>
      if id !in s.tables.sessions then None
      else Some(s.(tables := s.tables.(sessions := s.tables.sessions[id := s.tables.sessions[id].(revokedAt := Some(at))])))
    case CreateUser(user) =>
      Some(s.(tables := s.tables.(users := s.tables.users + {user})))
  }

  function Run(s: State, steps: seq<Step>): Option<State> {
    if steps == [] then Some(s)
    else
      var before := Run(s, steps[..|steps| - 1]);
      if before.None? then None else Next(before.value, steps[|steps| - 1])
  }

  /** Users and sessions as they may be, no new-context message yet. */
  function Start(users: set<UserKey>, sessions: map<int, Session>): State {
    State(Tables(users, sessions, map[]), map[], map[])
  }

  ghost predicate NotifiedAtMostOnce(outbox: map<int, Message>, user: UserKey) {
    forall a, b :: a in outbox && b in outbox && outbox[a].user == user && outbox[a] == outbox[b] ==> a == b
  }

  /** A committed message comes with a committed session of its context. */
  ghost predicate Announced(tables: Tables, user: UserKey) {
    forall id :: id in tables.outbox && tables.outbox[id].user == user
      ==> exists sid :: sid in tables.sessions && tables.sessions[sid].user == user
                        && tables.sessions[sid].context == tables.outbox[id].context
  }

  /** Past the lock statement of a login that checks its context. */
  predicate PastLock(t: Transaction) {
    t.login.ChecksContext() && !t.phase.Begun?
  }

  /** Going to queue a message. */
  predicate WillNotify(t: Transaction) {
    match t.phase
    case Checked(known) => !known
    case SessionInserted(known) => !known
    case Ready(notifies) => notifies
    case _ => false
  }

  ghost predicate NoMessage(outbox: map<int, Message>, login: Login) {
    forall id :: id in outbox ==> outbox[id] != Message(login.user, login.context)
  }

  /** What every step keeps, for a user that exists. */
  ghost predicate Inv(s: State, user: UserKey) {
    && user in s.tables.users
    && NotifiedAtMostOnce(s.tables.outbox, user)
    && Announced(s.tables, user)
    && (forall tx :: tx in s.running && s.running[tx].login.user == user && PastLock(s.running[tx])
         ==> user in s.locks && s.locks[user] == tx)
    && (forall tx :: tx in s.running && s.running[tx].login.user == user && WillNotify(s.running[tx])
         ==> PastLock(s.running[tx]) && NoMessage(s.tables.outbox, s.running[tx].login))
  }

  lemma StepKeepsInv(s: State, step: Step, user: UserKey)
    requires Inv(s, user) && Next(s, step).Some?
    ensures Inv(Next(s, step).value, user)
  {
    var after := Next(s, step).value;
    match step {
      case Commit(tx) => CommitKeepsInv(s, tx, user);
      case Revoke(id, at) =>
        assert forall sid :: sid in s.tables.sessions ==>
          && after.tables.sessions[sid].user == s.tables.sessions[sid].user
          && after.tables.sessions[sid].context == s.tables.sessions[sid].context;
      case InsertDirectly(login) =>
        assert forall sid :: sid in s.tables.sessions ==> after.tables.sessions[sid] == s.tables.sessions[sid];
      case _ =>
    }
  }

  lemma CommitKeepsInv(s: State, tx: int, user: UserKey)
    requires Inv(s, user) && Next(s, Commit(tx)).Some?
    ensures Inv(Next(s, Commit(tx)).value, user)
  {
    var after := Next(s, Commit(tx)).value;
    var login := s.running[tx].login;
    assert forall sid :: sid in s.tables.sessions ==> after.tables.sessions[sid] == s.tables.sessions[sid];
    assert after.tables.sessions[login.sessionId] == login.Row();
  }

  lemma {:induction false} RunKeepsInv(s: State, steps: seq<Step>, user: UserKey)
    requires Inv(s, user) && Run(s, steps).Some?
    ensures Inv(Run(s, steps).value, user)
  {
    if steps != [] {
      var n := |steps| - 1;
      RunKeepsInv(s, steps[..n], user);
      StepKeepsInv(Run(s, steps[..n]).value, steps[n], user);
    }
  }

  /** In every interleaving, a user who existed from the start is told of one
      context at most once, and only together with a session of it. */
  lemma AtMostOneNotification(users: set<UserKey>, sessions: map<int, Session>, steps: seq<Step>, user: UserKey)
    requires user in users
    requires Run(Start(users, sessions), steps).Some?
    ensures var tables := Run(Start(users, sessions), steps).value.tables;
      NotifiedAtMostOnce(tables.outbox, user) && Announced(tables, user)
  {
    RunKeepsInv(Start(users, sessions), steps, user);
  }

  predicate NeedsLock(s: State, tx: int, user: UserKey) {
    tx in s.running && s.running[tx].login.user == user && s.running[tx].login.ChecksContext()
  }

  /** Every lock statement of the user's logins finds the user row. */
  ghost predicate LocksFindUser(s: State, steps: seq<Step>, user: UserKey) {
    forall k :: 0 <= k < |steps| && steps[k].LockUser? && Run(s, steps[..k]).Some? ==>
      var at := Run(s, steps[..k]).value;
      NeedsLock(at, steps[k].tx, user) ==> user in at.tables.users
  }

  /** Before the user row is there: no login of the user is past its lock, and
      none has been announced. */
  ghost predicate Untouched(s: State, user: UserKey) {
    && user !in s.tables.users
    && (forall id :: id in s.tables.outbox ==> s.tables.outbox[id].user != user)
    && (forall tx :: tx in s.running && s.running[tx].login.user == user
         ==> !PastLock(s.running[tx]) && !WillNotify(s.running[tx]))
  }

  lemma StepKeepsUntouched(s: State, step: Step, user: UserKey)
    requires Untouched(s, user) && Next(s, step).Some?
    requires step.LockUser? ==> !NeedsLock(s, step.tx, user)
    ensures Untouched(Next(s, step).value, user) || Inv(Next(s, step).value, user)
  {
  }

  lemma {:induction false} RunKeepsInvOnceThere(s: State, steps: seq<Step>, user: UserKey)
    requires Untouched(s, user) || Inv(s, user)
    requires Run(s, steps).Some? && LocksFindUser(s, steps, user)
    ensures Untouched(Run(s, steps).value, user) || Inv(Run(s, steps).value, user)
  {
    if steps != [] {
      var n := |steps| - 1;
      assert forall k :: 0 <= k < n ==> steps[..n][..k] == steps[..k];
      RunKeepsInvOnceThere(s, steps[..n], user);
      var before := Run(s, steps[..n]).value;
      if Inv(before, user) {
        StepKeepsInv(before, steps[n], user);
      } else {
        StepKeepsUntouched(before, steps[n], user);
      }
    }
  }

  /** In every run in which each lock statement of the user's logins finds the
      user row, the user is told of one context at most once, and only together
      with a session of it; whenever the row appears. */
  lemma NotifiedOnceIfLocksFindUser(users: set<UserKey>, sessions: map<int, Session>, steps: seq<Step>, user: UserKey)
    requires Run(Start(users, sessions), steps).Some? && LocksFindUser(Start(users, sessions), steps, user)
    ensures var tables := Run(Start(users, sessions), steps).value.tables;
      NotifiedAtMostOnce(tables.outbox, user) && Announced(tables, user)
  {
    RunKeepsInvOnceThere(Start(users, sessions), steps, user);
  }

  // ------------------------------------------------------- exactly once

  predicate Stored(sessions: map<int, Session>, user: UserKey, context: Context) {
    exists id :: id in sessions && sessions[id].user == user && sessions[id].context == context
  }

  predicate Queued(outbox: map<int, Message>, message: Message) {
    exists id :: id in outbox && outbox[id] == message
  }

  predicate IsFrom(login: Login, user: UserKey, context: Context) {
    login.user == user && login.context == context
  }

  /** All logins from the context check it and ask to be announced. */
  ghost predicate AllCheck(steps: seq<Step>, user: UserKey, context: Context) {
    forall step :: step in steps ==>
      && (step.Begin? && IsFrom(step.login, user, context) ==> step.login.ChecksContext())
      && (step.InsertDirectly? ==> !IsFrom(step.login, user, context))
  }

  /** Going to store a session without a message. */
  predicate WillNotTell(t: Transaction) {
    match t.phase
    case Checked(known) => known
    case SessionInserted(known) => known
    case Ready(notifies) => !notifies
    case _ => false
  }

  /** A stored context has been announced, and who will not announce it has seen
      it stored. */
  ghost predicate Told(s: State, user: UserKey, context: Context) {
    && (Stored(s.tables.sessions, user, context) ==> Queued(s.tables.outbox, Message(user, context)))
    && (forall tx :: tx in s.running && IsFrom(s.running[tx].login, user, context) ==>
         && s.running[tx].login.ChecksContext()
         && (WillNotTell(s.running[tx]) ==> Stored(s.tables.sessions, user, context)))
  }

  /** What one step may do to the tables: no stored context disappears, and one
      appears by a commit or a direct insert only; messages stay. */
  lemma StepKeepsStored(s: State, step: Step, user: UserKey, context: Context)
    requires Next(s, step).Some?
    ensures var after := Next(s, step).value.tables;
      && (Stored(s.tables.sessions, user, context) ==> Stored(after.sessions, user, context))
      && (Queued(s.tables.outbox, Message(user, context)) ==> Queued(after.outbox, Message(user, context)))
      && (!step.Commit? && !step.InsertDirectly? && Stored(after.sessions, user, context) ==> Stored(s.tables.sessions, user, context))
  {
    var after := Next(s, step).value.tables;
    assert forall id :: id in s.tables.sessions ==>
      && id in after.sessions
      && after.sessions[id].user == s.tables.sessions[id].user && after.sessions[id].context == s.tables.sessions[id].context;
    assert forall id :: id in s.tables.outbox ==> id in after.outbox && after.outbox[id] == s.tables.outbox[id];
  }

  lemma CommitTells(s: State, tx: int, user: UserKey, context: Context)
    requires Told(s, user, context) && Next(s, Commit(tx)).Some?
    ensures Told(Next(s, Commit(tx)).value, user, context)
  {
    var after, login := Next(s, Commit(tx)).value, s.running[tx].login;
    StepKeepsStored(s, Commit(tx), user, context);
    if IsFrom(login, user, context) {
      assert after.tables.sessions[login.sessionId] == login.Row();
      if s.running[tx].phase.notifies {
        var id := login.notification.value;
        assert id in after.tables.outbox && after.tables.outbox[id] == Message(user, context);
      } else {
        assert WillNotTell(s.running[tx]);
        assert Stored(s.tables.sessions, user, context);
      }
    } else if Stored(after.tables.sessions, user, context) {
      var id :| id in after.tables.sessions && after.tables.sessions[id].user == user && after.tables.sessions[id].context == context;
      assert id in s.tables.sessions && after.tables.sessions[id] == s.tables.sessions[id];
    }
  }

  lemma StepTells(s: State, step: Step, user: UserKey, context: Context)
    requires Told(s, user, context) && Next(s, step).Some? && AllCheck([step], user, context)
    ensures Told(Next(s, step).value, user, context)
  {
    assert step in [step];
    StepKeepsStored(s, step, user, context);
    var after := Next(s, step).value;
    if step.Commit? {
      CommitTells(s, step.tx, user, context);
    } else if step.InsertDirectly? {
      assert forall id :: id in after.tables.sessions && id != step.login.sessionId ==> after.tables.sessions[id] == s.tables.sessions[id];
    }
  }

  lemma {:induction false} RunTells(s: State, steps: seq<Step>, user: UserKey, context: Context)
    requires Told(s, user, context) && Run(s, steps).Some? && AllCheck(steps, user, context)
    ensures Told(Run(s, steps).value, user, context)
  {
    if steps != [] {
      var n := |steps| - 1;
      assert steps[n] in steps;
      RunTells(s, steps[..n], user, context);
      StepTells(Run(s, steps[..n]).value, steps[n], user, context);
    }
  }

  /** Exactly once: if a user was there from the start, a context was not, and all
      logins from it ask to be announced, then in every interleaving a session of
      the context is committed iff exactly one message for it is. */
  lemma AnnouncedExactlyOnce(
    users: set<UserKey>, sessions: map<int, Session>, steps: seq<Step>, user: UserKey, context: Context)
    requires user in users && !Stored(sessions, user, context) && AllCheck(steps, user, context)
    requires Run(Start(users, sessions), steps).Some?
    ensures var tables := Run(Start(users, sessions), steps).value.tables;
      Stored(tables.sessions, user, context)
      <==> exists id :: id in tables.outbox && tables.outbox[id] == Message(user, context)
             && forall other :: other in tables.outbox && tables.outbox[other] == Message(user, context) ==> other == id
  {
    var tables := Run(Start(users, sessions), steps).value.tables;
    AtMostOneNotification(users, sessions, steps, user);
    RunTells(Start(users, sessions), steps, user, context);
  }

  /** A context that was stored at the start stays stored and is not announced. */
  ghost predicate Silent(s: State, user: UserKey, context: Context) {
    && Stored(s.tables.sessions, user, context)
    && !Queued(s.tables.outbox, Message(user, context))
    && (forall tx :: tx in s.running && IsFrom(s.running[tx].login, user, context) ==> !WillNotify(s.running[tx]))
  }

  lemma StepKeepsSilent(s: State, step: Step, user: UserKey, context: Context)
    requires Silent(s, user, context) && Next(s, step).Some?
    ensures Silent(Next(s, step).value, user, context)
  {
    StepKeepsStored(s, step, user, context);
    var after := Next(s, step).value;
    forall id | id in after.tables.outbox
      ensures after.tables.outbox[id] != Message(user, context)
    {
      if id in s.tables.outbox {
        assert s.tables.outbox[id] != Message(user, context);
        assert after.tables.outbox[id] == s.tables.outbox[id];
      }
    }
  }

  /** Nobody is told, in any interleaving, of a context that a session had at the
      start, whether or not the user row is there. */
  lemma {:induction false} StoredContextIsNotAnnounced(
    users: set<UserKey>, sessions: map<int, Session>, steps: seq<Step>, user: UserKey, context: Context)
    requires Stored(sessions, user, context) && Run(Start(users, sessions), steps).Some?
    ensures Silent(Run(Start(users, sessions), steps).value, user, context)
  {
    if steps != [] {
      var n := |steps| - 1;
      StoredContextIsNotAnnounced(users, sessions, steps[..n], user, context);
      StepKeepsSilent(Run(Start(users, sessions), steps[..n]).value, steps[n], user, context);
    }
  }

  // ------------------------------------------------- users that come later

  /** Two logins of a user whose row appears between their lock statements and
      their checks. */
  function LateLogin(user: UserKey, n: int): Login {
    Login(n, user, Context(Some("203.0.113.77"), None), Some(n))
  }

  function LateUser(user: UserKey): seq<Step> {
    [ Begin(1, LateLogin(user, 1)), Begin(2, LateLogin(user, 2)), LockUser(1), LockUser(2), CreateUser(user),
      CheckContext(1), CheckContext(2), InsertSession(1), InsertSession(2),
      QueueNotification(1), QueueNotification(2), Commit(1), Commit(2) ]
  }

  ghost predicate Reaches(s: State, steps: seq<Step>, k: nat, at: State) {
    k <= |steps| && Run(s, steps[..k]) == Some(at)
  }

  /** The state one statement further on. */
  lemma OneMoreStep(s: State, steps: seq<Step>, k: nat, at: State) returns (next: State)
    requires k < |steps| && Reaches(s, steps, k, at) && Next(at, steps[k]).Some?
    ensures Reaches(s, steps, k + 1, next) && Next(at, steps[k]) == Some(next)
  {
    assert steps[..k + 1][..k] == steps[..k];
    next := Next(at, steps[k]).value;
  }

  /** Both logins in flight, in the given phases, nothing locked or stored. */
  ghost predicate Racing(s: State, users: set<UserKey>, user: UserKey, one: Phase, two: Phase) {
    && s.tables == Tables(users, map[], map[]) && s.locks == map[]
    && 1 in s.running && s.running[1] == Transaction(LateLogin(user, 1), one)
    && 2 in s.running && s.running[2] == Transaction(LateLogin(user, 2), two)
  }

  lemma BothPassTheLock(users: set<UserKey>, user: UserKey) returns (end: State)
    requires user !in users
    ensures Reaches(Start(users, map[]), LateUser(user), 4, end)
    ensures Racing(end, users, user, Locked, Locked)
  {
    var steps := LateUser(user);
    var start := Start(users, map[]);
    assert steps[..0] == [];
    end := OneMoreStep(start, steps, 0, start);
    end := OneMoreStep(start, steps, 1, end);
    assert Racing(end, users, user, Begun, Begun);
    end := OneMoreStep(start, steps, 2, end);
    end := OneMoreStep(start, steps, 3, end);
  }

  lemma BothCheck(users: set<UserKey>, user: UserKey) returns (end: State)
    requires user !in users
    ensures Reaches(Start(users, map[]), LateUser(user), 7, end)
    ensures Racing(end, users + {user}, user, Checked(false), Checked(false))
  {
    var steps := LateUser(user);
    var start := Start(users, map[]);
    end := BothPassTheLock(users, user);
    end := OneMoreStep(start, steps, 4, end);
    assert Racing(end, users + {user}, user, Locked, Locked);
    end := OneMoreStep(start, steps, 5, end);
    assert Racing(end, users + {user}, user, Checked(false), Locked);
    end := OneMoreStep(start, steps, 6, end);
  }

  lemma BothBecomeReady(users: set<UserKey>, user: UserKey) returns (end: State)
    requires user !in users
    ensures Reaches(Start(users, map[]), LateUser(user), 11, end)
    ensures Racing(end, users + {user}, user, Ready(true), Ready(true))
  {
    var steps := LateUser(user);
    var start := Start(users, map[]);
    end := BothCheck(users, user);
    end := OneMoreStep(start, steps, 7, end);
    end := OneMoreStep(start, steps, 8, end);
    assert Racing(end, users + {user}, user, SessionInserted(false), SessionInserted(false));
    end := OneMoreStep(start, steps, 9, end);
    assert Racing(end, users + {user}, user, Ready(true), SessionInserted(false));
    end := OneMoreStep(start, steps, 10, end);
  }

  /** Both find the context unknown and both announce it. */
  lemma LateUserIsToldTwice(users: set<UserKey>, user: UserKey)
    requires user !in users
    ensures var end := Run(Start(users, map[]), LateUser(user));
      end.Some? && !NotifiedAtMostOnce(end.value.tables.outbox, user)
  {
    var steps := LateUser(user);
    var start := Start(users, map[]);
    var end := BothBecomeReady(users, user);
    end := OneMoreStep(start, steps, 11, end);
    assert end.tables.outbox.Keys == {1} && end.tables.sessions.Keys == {1};
    end := OneMoreStep(start, steps, 12, end);
    assert steps[..13] == steps;
    assert end.tables.outbox[1] == end.tables.outbox[2];
  }

  /** The lock protects exactly the users that exist when logins begin. */
  lemma NotifiedOnceIffUserExists(users: set<UserKey>, user: UserKey)
    ensures user in users
      <==> forall steps :: Run(Start(users, map[]), steps).Some?
             ==> NotifiedAtMostOnce(Run(Start(users, map[]), steps).value.tables.outbox, user)
  {
    if user in users {
      forall steps | Run(Start(users, map[]), steps).Some?
        ensures NotifiedAtMostOnce(Run(Start(users, map[]), steps).value.tables.outbox, user)
      {
        AtMostOneNotification(users, map[], steps, user);
      }
    } else {
      LateUserIsToldTwice(users, user);
    }
  }

  /** The statements of one login. */
  function Statements(tx: int, login: Login): seq<Step> {
    [Begin(tx, login), LockUser(tx), CheckContext(tx), InsertSession(tx), QueueNotification(tx), Commit(tx)]
  }

  /** The transaction alone has come to a phase, and nothing is stored. */
  ghost predicate AloneAt(s: State, end: State, tx: int, login: Login, phase: Phase) {
    end.tables == s.tables && tx in end.running && end.running[tx] == Transaction(login, phase)
  }

  lemma AloneIsChecked(s: State, tx: int, login: Login) returns (end: State)
    requires tx !in s.running && login.user !in s.locks
    ensures Reaches(s, Statements(tx, login), 3, end)
    ensures AloneAt(s, end, tx, login, Checked(!login.ChecksContext() || KnownContext(s.tables.sessions, login)))
  {
    var steps := Statements(tx, login);
    assert steps[..0] == [];
    end := OneMoreStep(s, steps, 0, s);
    assert AloneAt(s, end, tx, login, Begun);
    end := OneMoreStep(s, steps, 1, end);
    assert AloneAt(s, end, tx, login, Locked);
    end := OneMoreStep(s, steps, 2, end);
  }

  /** The login is going to queue its message. */
  predicate Announces(sessions: map<int, Session>, login: Login) {
    login.ChecksContext() && !KnownContext(sessions, login)
  }

  lemma AloneIsReady(s: State, tx: int, login: Login) returns (end: State)
    requires tx !in s.running && login.user !in s.locks
    requires login.user in s.tables.users && login.sessionId !in s.tables.sessions
    requires Announces(s.tables.sessions, login) ==> login.notification.value !in s.tables.outbox
    ensures Reaches(s, Statements(tx, login), 5, end)
    ensures AloneAt(s, end, tx, login, Ready(Announces(s.tables.sessions, login)))
  {
    var steps := Statements(tx, login);
    end := AloneIsChecked(s, tx, login);
    end := OneMoreStep(s, steps, 3, end);
    end := OneMoreStep(s, steps, 4, end);
  }

  /** When no constraint stands in the way. */
  lemma CanCreateIff(before: Tables, login: Login)
    ensures CanCreate(before, login) <==>
      && login.user in before.users && login.sessionId !in before.sessions
      && (Announces(before.sessions, login) ==> login.notification.value !in before.outbox)
  {
    var sessions := before.sessions[login.sessionId := login.Row()];
    if login.user in before.users && login.sessionId !in before.sessions {
      if !Announces(before.sessions, login) {
        assert Created(before, login, before.(sessions := sessions), None);
      } else if login.notification.value !in before.outbox {
        var outbox := before.outbox[login.notification.value := Message(login.user, login.context)];
        assert Created(before, login, Tables(before.users, sessions, outbox), login.notification);
      }
    }
  }

  lemma RunStep(s: State, steps: seq<Step>, k: nat)
    requires k < |steps|
    ensures Run(s, steps[..k + 1]) == if Run(s, steps[..k]).None? then None else Next(Run(s, steps[..k]).value, steps[k])
  {
    assert steps[..k + 1][..k] == steps[..k];
  }

  lemma AloneFails(s: State, tx: int, login: Login)
    requires tx !in s.running && login.user !in s.locks && !CanCreate(s.tables, login)
    ensures Run(s, Statements(tx, login)[..5]).None?
  {
    var steps := Statements(tx, login);
    var checked := AloneIsChecked(s, tx, login);
    CanCreateIff(s.tables, login);
    RunStep(s, steps, 3);
    RunStep(s, steps, 4);
    if login.user in s.tables.users && login.sessionId !in s.tables.sessions {
      var inserted := OneMoreStep(s, steps, 3, checked);
      assert AloneAt(s, inserted, tx, login, SessionInserted(!Announces(s.tables.sessions, login)));
    }
  }

  /** Undisturbed, the statements go through iff the method succeeds, and have the
      effect that it states. */
  lemma AloneIsCreated(s: State, tx: int, login: Login)
    requires tx !in s.running && login.user !in s.locks
    ensures var end := Run(s, Statements(tx, login));
      && (end.Some? <==> CanCreate(s.tables, login))
      && (end.Some? ==> exists queued :: Created(s.tables, login, end.value.tables, queued))
  {
    var steps := Statements(tx, login);
    assert steps[..6] == steps;
    RunStep(s, steps, 5);
    if CanCreate(s.tables, login) {
      CanCreateIff(s.tables, login);
      var ready := AloneIsReady(s, tx, login);
      var end := OneMoreStep(s, steps, 5, ready);
      var queued := if ready.running[tx].phase.notifies then login.notification else None;
      assert Created(s.tables, login, end.tables, queued);
    } else {
      AloneFails(s, tx, login);
    }
  }
}
