/**
 * The local recovery commands: password, disable, enable and revoke-sessions. Each command looks its
 * user up outside the transaction and then changes the user, the sessions and the audit trail inside
 * one; lookups and transactions of different commands interleave freely.
 */
module Recovery {
  import opened Wrappers

  type UserId = nat
  type SessionId = nat
  type Time = int

  datatype User = User(
    id: UserId,
    email: string,
    passwordHash: string,
    passwordChangedAt: Option<Time>,
    enabled: bool,
    disabledAt: Option<Time>,
    sessionEpoch: int)

  datatype Session = Session(userId: UserId, expiresAt: Time, revokedAt: Option<Time>)

  datatype Command = Password | Disable | Enable | RevokeSessions

  datatype Event = Event(command: Command, userId: UserId, epochBefore: int, epochAfter: int, revokedSessions: nat)

  datatype Db = Db(users: map<UserId, User>, sessions: map<SessionId, Session>, audit: seq<Event>)

  /** The disabled synthetic actor of the seed data. */
  const P0_ID: UserId := 0
  const P0_EMAIL := "p0-synthetic-actor@example.invalid"

  predicate StartsWithMark(hash: string) {
    hash != "" && hash[0] == '!'
  }

  /** Rows that the commands never modify. */
  predicate IsProtectedFixture(u: User) {
    u.id == P0_ID || u.email == P0_EMAIL || StartsWithMark(u.passwordHash)
  }

  datatype Outcome =
    | Reported(userId: UserId, changed: bool, enabled: bool, epochBefore: int, epochAfter: int,
               revokedSessions: nat, protectedFixture: bool)
    | Refused
    | Failed

  function Unchanged(u: User, protectedFixture: bool): Outcome {
    Reported(u.id, false, u.enabled, u.sessionEpoch, u.sessionEpoch, 0, protectedFixture)
  }

  function Changed(u: User, revoked: nat): Outcome {
    Reported(u.id, true, u.enabled, u.sessionEpoch - 1, u.sessionEpoch, revoked, false)
  }

  // ----- The lookup outside the transaction ------------------------------------------------------

  /** The row of the user with this normalized email. */
  predicate IsRowOf(db: Db, email: string, found: Option<User>) {
    match found
    case Some(u) => u.id in db.users && db.users[u.id] == u && u.email == email
    case None => forall id :: id in db.users ==> db.users[id].email != email
  }

  datatype Looked = Answer(outcome: Outcome) | Proceed(user: User)

  predicate AlreadyDisabled(u: User) {
    !u.enabled && u.disabledAt.Some?
  }

  /** What a command decides before its transaction. `email` is None when it is not an acceptable
      address, `found` the row of the address, and `weak` tells that the new password was refused. */
  function Decide(c: Command, email: Option<string>, found: Option<User>, weak: bool): Looked {
    if email.None? then Answer(Refused)
    else if c != Disable && email.value == P0_EMAIL then Answer(Refused)
    else if found.None? then Answer(Refused)
    else
      var u := found.value;
      match c
      case Disable =>
        if IsProtectedFixture(u) then Answer(if AlreadyDisabled(u) then Unchanged(u, true) else Refused)
        else if AlreadyDisabled(u) then Answer(Unchanged(u, false))
        else Proceed(u)
      case Enable =>
        if IsProtectedFixture(u) then Answer(Refused)
        else if u.enabled && u.disabledAt.None? then Answer(Unchanged(u, false))
        else Proceed(u)
      case Password => if IsProtectedFixture(u) || weak then Answer(Refused) else Proceed(u)
      case RevokeSessions => if IsProtectedFixture(u) then Answer(Refused) else Proceed(u)
  }

  // ----- The transaction -------------------------------------------------------------------------

  predicate IsActive(s: Session, user: UserId, now: Time) {
    s.userId == user && s.revokedAt.None? && s.expiresAt > now
  }

  function ActiveSessions(sessions: map<SessionId, Session>, user: UserId, now: Time): set<SessionId> {
    set s | s in sessions && IsActive(sessions[s], user, now)
  }

  function Revoked(sessions: map<SessionId, Session>, user: UserId, now: Time): map<SessionId, Session> {
    map s | s in sessions ::
      if IsActive(sessions[s], user, now) then sessions[s].(revokedAt := Some(now)) else sessions[s]
  }

  /** Writes the row with the next epoch, revokes the active sessions and appends the event. */
  function Committed(db: Db, c: Command, row: User, now: Time): (Db, Outcome) {
    var updated := row.(sessionEpoch := row.sessionEpoch + 1);
    var revoked := |ActiveSessions(db.sessions, row.id, now)|;
    var event := Event(c, row.id, updated.sessionEpoch - 1, updated.sessionEpoch, revoked);
    (Db(db.users[row.id := updated], Revoked(db.sessions, row.id, now), db.audit + [event]), Changed(updated, revoked))
  }

  /** The transaction of a command for the row it looked up. The row itself is read again; a missing row
      aborts the transaction. */
  function Transact(db: Db, c: Command, seen: User, hash: string, now: Time): (Db, Outcome) {
    if seen.id !in db.users then
      (db, if c.Disable? || c.Enable? then Unchanged(seen, false) else Failed)
    else
      var row := db.users[seen.id];
      match c
      case Password => Committed(db, c, row.(passwordHash := hash, passwordChangedAt := Some(now)), now)
      case RevokeSessions => Committed(db, c, row, now)
      case Disable =>
        if row.enabled || row.disabledAt.None?
        then Committed(db, c, row.(enabled := false, disabledAt := Some(now)), now)
        else (db, Unchanged(seen, false))
      case Enable =>
        if !row.enabled || row.disabledAt.Some?
        then Committed(db, c, row.(enabled := true, disabledAt := None), now)
        else (db, Unchanged(seen, false))
  }

  /** The store as the commands use it. Every method is one query or one transaction. */
  class Store {
    var users: map<UserId, User>
    var sessions: map<SessionId, Session>
    var audit: seq<Event>

    ghost function State(): Db
      reads this
    {
      Db(users, sessions, audit)
    }

    /** The column email is unique, and a row is stored under its id. */
    ghost predicate Valid()
      reads this
    {
      RowsConsistent(State())
    }

    method FindUnique(email: string) returns (found: Option<User>)
      requires Valid()
      ensures IsRowOf(State(), email, found)
    {
      if exists id :: id in users && users[id].email == email {
        var id :| id in users && users[id].email == email;
        return Some(users[id]);
      }
      return None;
    }

    method RevokeActiveSessions(user: UserId, now: Time) returns (count: nat)
      modifies this`sessions
      ensures sessions == Revoked(old(sessions), user, now)
      ensures count == |ActiveSessions(old(sessions), user, now)|
    {
      count := |ActiveSessions(sessions, user, now)|;
      sessions := Revoked(sessions, user, now);
    }

    method ResetPassword(seen: User, hash: string, now: Time) returns (outcome: Outcome)
      requires Valid()
      modifies this
      ensures Valid() && (State(), outcome) == Transact(old(State()), Password, seen, hash, now)
    {
      if seen.id !in users {
        return Failed;
      }
      var row := users[seen.id];
      var updated := row.(passwordHash := hash, passwordChangedAt := Some(now), sessionEpoch := row.sessionEpoch + 1);
      users := users[seen.id := updated];
      var revoked := RevokeActiveSessions(seen.id, now);
      audit := audit + [Event(Password, seen.id, updated.sessionEpoch - 1, updated.sessionEpoch, revoked)];
      return Changed(updated, revoked);
    }

    method DisableUser(seen: User, now: Time) returns (outcome: Outcome)
      requires Valid()
      modifies this
      ensures Valid() && (State(), outcome) == Transact(old(State()), Disable, seen, "", now)
    {
      if seen.id !in users || !(users[seen.id].enabled || users[seen.id].disabledAt.None?) {
        return Unchanged(seen, false);
      }
      var row := users[seen.id];
      users := users[seen.id := row.(enabled := false, disabledAt := Some(now), sessionEpoch := row.sessionEpoch + 1)];
      var revoked := RevokeActiveSessions(seen.id, now);
      var updated := users[seen.id];
      audit := audit + [Event(Disable, seen.id, updated.sessionEpoch - 1, updated.sessionEpoch, revoked)];
      return Changed(updated, revoked);
    }

    method EnableUser(seen: User, now: Time) returns (outcome: Outcome)
      requires Valid()
      modifies this
      ensures Valid() && (State(), outcome) == Transact(old(State()), Enable, seen, "", now)
    {
      if seen.id !in users || !(!users[seen.id].enabled || users[seen.id].disabledAt.Some?) {
        return Unchanged(seen, false);
      }
      var row := users[seen.id];
      users := users[seen.id := row.(enabled := true, disabledAt := None, sessionEpoch := row.sessionEpoch + 1)];
      var revoked := RevokeActiveSessions(seen.id, now);
      var updated := users[seen.id];
      audit := audit + [Event(Enable, seen.id, updated.sessionEpoch - 1, updated.sessionEpoch, revoked)];
      return Changed(updated, revoked);
    }

    method RevokeUserSessions(seen: User, now: Time) returns (outcome: Outcome)
      requires Valid()
      modifies this
      ensures Valid() && (State(), outcome) == Transact(old(State()), RevokeSessions, seen, "", now)
    {
      if seen.id !in users {
        return Failed;
      }
      var updated := users[seen.id].(sessionEpoch := users[seen.id].sessionEpoch + 1);
      users := users[seen.id := updated];
      var revoked := RevokeActiveSessions(seen.id, now);
      audit := audit + [Event(RevokeSessions, seen.id, updated.sessionEpoch - 1, updated.sessionEpoch, revoked)];
      return Changed(updated, revoked);
    }
  }

  ghost predicate RowsConsistent(db: Db) {
    (forall id :: id in db.users ==> db.users[id].id == id) &&
    forall a, b :: a in db.users && b in db.users && db.users[a].email == db.users[b].email ==> a == b
  }

  // ----- Interleaved commands --------------------------------------------------------------------

  /** A running command: not started, waiting for its transaction, or finished. */
  datatype Process =
    | Start(command: Command, email: Option<string>)
    | Waiting(command: Command, user: User)
    | Finished(command: Command, outcome: Outcome)

  datatype System = System(db: Db, processes: map<nat, Process>)

  /** One atomic step: a lookup, a transaction, or a login elsewhere that creates a session. */
  datatype Step =
    | Look(pid: nat, found: Option<User>, weak: bool)
    | Transaction(pid: nat, hash: string, now: Time)
    | Login(sid: SessionId, session: Session)

  /** The lookup sees the current row, a session is created under a new id, and the password hasher
      never returns a fixture marker. */
  ghost predicate Possible(s: System, step: Step) {
    match step
    case Look(pid, found, _) =>
      && pid in s.processes && s.processes[pid].Start?
      && (s.processes[pid].email.Some? ==> IsRowOf(s.db, s.processes[pid].email.value, found))
      && (s.processes[pid].email.None? ==> found.None?)
    case Transaction(pid, hash, _) => pid in s.processes && s.processes[pid].Waiting? && !StartsWithMark(hash)
    case Login(sid, _) => sid !in s.db.sessions
  }

  function Next(s: System, step: Step): System {
    match step
    case Look(pid, found, weak) =>
      if pid in s.processes && s.processes[pid].Start? then
        var Start(c, email) := s.processes[pid];
        var p := match Decide(c, email, found, weak)
                 case Answer(outcome) => Finished(c, outcome)
                 case Proceed(user) => Waiting(c, user);
        s.(processes := s.processes[pid := p])
      else s
    case Transaction(pid, hash, now) =>
      if pid in s.processes && s.processes[pid].Waiting? then
        var Waiting(c, user) := s.processes[pid];
        var (db, outcome) := Transact(s.db, c, user, hash, now);
        System(db, s.processes[pid := Finished(c, outcome)])
      else s
    case Login(sid, session) => s.(db := s.db.(sessions := s.db.sessions[sid := session]))
  }

  function Run(s: System, steps: seq<Step>): System {
    if steps == [] then s else Next(Run(s, steps[..|steps| - 1]), steps[|steps| - 1])
  }

  ghost predicate PossibleRun(s: System, steps: seq<Step>) {
    steps == [] ||
    (PossibleRun(s, steps[..|steps| - 1]) && Possible(Run(s, steps[..|steps| - 1]), steps[|steps| - 1]))
  }

  /** Commands are about to start on a consistent store. */
  ghost predicate Initial(s: System) {
    RowsConsistent(s.db) && forall pid :: pid in s.processes ==> s.processes[pid].Start?
  }

  // ----- What every run keeps --------------------------------------------------------------------

  /** A command waits only for a row that exists and is no fixture. */
  ghost predicate Consistent(s: System) {
    RowsConsistent(s.db) &&
    forall pid :: pid in s.processes && s.processes[pid].Waiting? ==>
      var u := s.processes[pid].user; u.id in s.db.users && !IsProtectedFixture(s.db.users[u.id])
  }

  /** A transaction either changes nothing and reports no change, or commits a new version of the row. */
  lemma TransactCases(db: Db, c: Command, seen: User, hash: string, now: Time) returns (committed: bool, row: User)
    requires RowsConsistent(db) && seen.id in db.users
    ensures !committed ==> Transact(db, c, seen, hash, now) == (db, Unchanged(seen, false))
    ensures committed ==> Transact(db, c, seen, hash, now) == Committed(db, c, row, now)
    ensures row.id == seen.id && row.email == db.users[seen.id].email &&
      row.sessionEpoch == db.users[seen.id].sessionEpoch
    ensures row.enabled == db.users[seen.id].enabled || c.Disable? || c.Enable?
    ensures c.Disable? && committed ==> (row.enabled, row.disabledAt) == (false, Some(now))
    ensures c.Enable? && committed ==> (row.enabled, row.disabledAt) == (true, None)
    ensures !c.Disable? && !c.Enable? ==> row.disabledAt == db.users[seen.id].disabledAt
    ensures committed <==> !(c.Disable? && AlreadyDisabled(db.users[seen.id])) &&
                           !(c.Enable? && db.users[seen.id].enabled && db.users[seen.id].disabledAt.None?)
    ensures var before := db.users[seen.id];
      (row.passwordHash, row.passwordChangedAt) ==
        if c.Password? then (hash, Some(now)) else (before.passwordHash, before.passwordChangedAt)
  {
    row := db.users[seen.id];
    committed := true;
    match c
    case Password => row := row.(passwordHash := hash, passwordChangedAt := Some(now));
    case RevokeSessions =>
    case Disable =>
      committed := row.enabled || row.disabledAt.None?;
      row := row.(enabled := false, disabledAt := Some(now));
    case Enable =>
      committed := !row.enabled || row.disabledAt.Some?;
      row := row.(enabled := true, disabledAt := None);
  }

  /** The session is one of the user's that is neither revoked nor expired. */
  predicate Unexpired(session: Session, user: UserId, now: Time) {
    session.userId == user && session.revokedAt == None && now < session.expiresAt
  }

  /** What the documentation of the commands promises of their transactions. A change is reported exactly
      when there was something to change. */
  lemma CommandEffects(db: Db, c: Command, seen: User, hash: string, now: Time)
    requires RowsConsistent(db) && seen.id in db.users
    ensures var (db', out) := Transact(db, c, seen, hash, now);
      var before, after := db.users[seen.id], if seen.id in db'.users then db'.users[seen.id] else seen;
      && db'.users.Keys == db.users.Keys && out.Reported?
      && (out.changed <==>
        !(c.Disable? && AlreadyDisabled(before)) && !(c.Enable? && before.enabled && before.disabledAt.None?))
      && (!out.changed ==> db' == db)
      && (out.changed ==>
            && (out.epochBefore, out.epochAfter, out.enabled) ==
              (before.sessionEpoch, after.sessionEpoch, after.enabled)
            && after.sessionEpoch == before.sessionEpoch + 1
            && db'.audit == db.audit + [Event(c, seen.id, before.sessionEpoch, after.sessionEpoch, out.revokedSessions)]
            && out.revokedSessions == |set sid | sid in db.sessions && Unexpired(db.sessions[sid], seen.id, now)|
            && (c.Disable? ==> after.disabledAt == Some(now)))
      && db'.sessions.Keys == db.sessions.Keys
      && (forall sid :: sid in db.sessions ==>
            db'.sessions[sid] == if out.changed && Unexpired(db.sessions[sid], seen.id, now)
                                 then db.sessions[sid].(revokedAt := Some(now)) else db.sessions[sid])
      && (c.Disable? ==> AlreadyDisabled(after))
      && (c.Enable? ==> after.enabled && after.disabledAt.None?)
      && (c.Password? ==> after.passwordHash == hash && after.passwordChangedAt == Some(now))
      && (!c.Password? ==>
        after.passwordHash == before.passwordHash && after.passwordChangedAt == before.passwordChangedAt)
      && (c.Password? || c.RevokeSessions? ==> (after.enabled, after.disabledAt) == (before.enabled, before.disabledAt))
      && forall id :: id in db.users && id != seen.id ==> db'.users[id] == db.users[id]
  {
    var committed, row := TransactCases(db, c, seen, hash, now);
    assert (set sid | sid in db.sessions && Unexpired(db.sessions[sid], seen.id, now))
        == ActiveSessions(db.sessions, seen.id, now);
  }

  // ----- When a command proceeds -----------------------------------------------------------------

  /** No fixture: not the synthetic actor, by id or address, and the hash is no marker. */
  predicate Ordinary(u: User) {
    u.id != 0 && u.email != "p0-synthetic-actor@example.invalid" && (u.passwordHash == "" || u.passwordHash[0] != '!')
  }

  /** The row is already in the state the command leads to. */
  predicate AsWanted(c: Command, u: User) {
    (c.Disable? && !u.enabled && u.disabledAt != None) || (c.Enable? && u.enabled && u.disabledAt == None)
  }

  /** Main result on lookups: the command goes on to its transaction exactly for an acceptable address of an
      ordinary user with something to do, and a password that is not weak. Else it reports a row without a
      change, protected or not, if it is already as wanted, and refuses otherwise. */
  lemma LookDecides(s: System, pid: nat, found: Option<User>, weak: bool)
    requires Possible(s, Look(pid, found, weak))
    ensures var s', Start(c, email) := Next(s, Look(pid, found, weak)), s.processes[pid];
      && s'.db == s.db && s'.processes.Keys == s.processes.Keys
      && (forall other :: other in s.processes && other != pid ==> s'.processes[other] == s.processes[other])
      && s'.processes[pid] ==
         if email == None || found == None then Finished(c, Refused)
         else
           var u := found.value;
           if AsWanted(c, u) && (c.Disable? || Ordinary(u)) then
             Finished(c, Reported(u.id, false, u.enabled, u.sessionEpoch, u.sessionEpoch, 0, !Ordinary(u)))
           else if Ordinary(u) && !(c.Password? && weak) then Waiting(c, u)
           else Finished(c, Refused)
  {
  }

  /** A lookup directly followed by its transaction: a command that proceeded leaves the row as wanted and
      reports the change. */
  lemma ProceedingCommandSucceeds(s: System, pid: nat, found: Option<User>, weak: bool, hash: string, now: Time)
    requires Consistent(s) && Possible(s, Look(pid, found, weak)) && !(hash != "" && hash[0] == '!')
    requires s.processes[pid].email != None && found != None
    requires var c := s.processes[pid].command;
      Ordinary(found.value) && !AsWanted(c, found.value) && !(c.Password? && weak)
    ensures var c, u := s.processes[pid].command, found.value;
      var waiting := Next(s, Look(pid, found, weak));
      var s' := Next(waiting, Transaction(pid, hash, now));
      && Possible(waiting, Transaction(pid, hash, now)) && pid in s'.processes && u.id in s'.db.users
      && var row, p := s'.db.users[u.id], s'.processes[pid];
         && p.Finished? && p.outcome.Reported? && p.outcome.changed && p.outcome.userId == u.id
         && (p.outcome.epochBefore, p.outcome.epochAfter) == (u.sessionEpoch, u.sessionEpoch + 1)
         && p.outcome.enabled == row.enabled
         && row == match c
                   case Password =>
                     u.(passwordHash := hash, passwordChangedAt := Some(now), sessionEpoch := u.sessionEpoch + 1)
                   case Disable => u.(enabled := false, disabledAt := Some(now), sessionEpoch := u.sessionEpoch + 1)
                   case Enable => u.(enabled := true, disabledAt := None, sessionEpoch := u.sessionEpoch + 1)
                   case RevokeSessions => u.(sessionEpoch := u.sessionEpoch + 1)
  {
    LookDecides(s, pid, found, weak);
  }

  /** A transaction that finds nothing to do reports the row as looked up, before it: after a concurrent
      disable it still reports an enabled user, exactly when the lookup saw one. */
  lemma UnchangedReportsTheLookup(db: Db, c: Command, seen: User, hash: string, now: Time)
    requires RowsConsistent(db) && seen.id in db.users && AsWanted(c, db.users[seen.id])
    ensures var (db', out) := Transact(db, c, seen, hash, now);
      && db' == db && out.Reported? && !out.changed
      && (out.enabled == db.users[seen.id].enabled <==> seen.enabled == c.Enable?)
  {
    CommandEffects(db, c, seen, hash, now);
  }

  const RACED: User := User(1, "a@example.invalid", "", None, true, None, 0)
  const RACE: System := System(Db(map[1 := RACED], map[], []),
    map[0 := Start(Disable, Some("a@example.invalid")), 1 := Start(Disable, Some("a@example.invalid"))])

  const RACE_STEPS: seq<Step> :=
    [] + [Look(0, Some(RACED), false)] + [Look(1, Some(RACED), false)] +
    [Transaction(0, "", 5)] + [Transaction(1, "", 6)]

  lemma RunSnoc(s: System, steps: seq<Step>, last: Step)
    ensures Run(s, steps + [last]) == Next(Run(s, steps), last)
    ensures PossibleRun(s, steps + [last]) <==> PossibleRun(s, steps) && Possible(Run(s, steps), last)
  {
    assert (steps + [last])[..|steps|] == steps;
  }

  /** Two commands see user 1 enabled and disable it: the later one reports it enabled and unchanged. */
  lemma LateDisableReportsEnabled()
    ensures Initial(RACE) && PossibleRun(RACE, RACE_STEPS)
    ensures var s := Run(RACE, RACE_STEPS);
      && 1 in s.db.users && !s.db.users[1].enabled && 0 in s.processes && 1 in s.processes
      && s.processes[0] == Finished(Disable, Reported(1, true, false, 0, 1, 0, false))
      && s.processes[1] == Finished(Disable, Reported(1, false, true, 0, 0, 0, false))
  {
    var none: seq<Step> := [];
    var seen := none + [Look(0, Some(RACED), false)] + [Look(1, Some(RACED), false)];
    RunSnoc(RACE, none, Look(0, Some(RACED), false));
    RunSnoc(RACE, none + [Look(0, Some(RACED), false)], Look(1, Some(RACED), false));
    RunSnoc(RACE, seen, Transaction(0, "", 5));
    RunSnoc(RACE, seen + [Transaction(0, "", 5)], Transaction(1, "", 6));
    var waiting := Run(RACE, seen);
    assert waiting.processes[0] == Waiting(Disable, RACED) && waiting.processes[1] == Waiting(Disable, RACED);
    var disabled := RACED.(enabled := false, disabledAt := Some(5), sessionEpoch := 1);
    assert ActiveSessions(map[], 1, 5) == {};
    assert Next(waiting, Transaction(0, "", 5)).db.users == map[1 := disabled];
  }

  lemma StepKeepsConsistent(s: System, step: Step)
    requires Consistent(s) && Possible(s, step)
    ensures Consistent(Next(s, step))
    ensures Next(s, step).db.users.Keys == s.db.users.Keys
    ensures forall id :: id in s.db.users ==>
      (IsProtectedFixture(Next(s, step).db.users[id]) <==> IsProtectedFixture(s.db.users[id]))
  {
    match step
    case Transaction(pid, hash, now) =>
      var Waiting(c, user) := s.processes[pid];
      var committed, row := TransactCases(s.db, c, user, hash, now);
    case _ =>
  }

  lemma {:induction false} RunKeepsConsistent(s: System, steps: seq<Step>)
    requires Consistent(s) && PossibleRun(s, steps)
    ensures Consistent(Run(s, steps)) && Run(s, steps).db.users.Keys == s.db.users.Keys
  {
    if steps != [] {
      RunKeepsConsistent(s, steps[..|steps| - 1]);
      StepKeepsConsistent(Run(s, steps[..|steps| - 1]), steps[|steps| - 1]);
    }
  }

  // ----- Epochs, events and outcomes -------------------------------------------------------------

  /** The events about one user, in commit order. */
  function EventsOf(audit: seq<Event>, user: UserId): seq<Event> {
    if audit == [] then []
    else
      var init, last := EventsOf(audit[..|audit| - 1], user), audit[|audit| - 1];
      if last.userId == user then init + [last] else init
  }

  /** The commands that reported a change of this user. */
  ghost function ChangedBy(processes: map<nat, Process>, user: UserId): set<nat> {
    set pid | pid in processes && processes[pid].Finished? && processes[pid].outcome.Reported?
              && processes[pid].outcome.changed && processes[pid].outcome.userId == user
  }

  /** Consecutive epochs from `epoch` on: each event starts where the one before ended. */
  ghost predicate Chained(events: seq<Event>, epoch: int) {
    forall i :: 0 <= i < |events| ==> events[i].epochBefore == epoch + i && events[i].epochAfter == epoch + i + 1
  }

  lemma EventsSnoc(audit: seq<Event>, last: Event, user: UserId)
    ensures EventsOf(audit + [last], user) == EventsOf(audit, user) + if last.userId == user then [last] else []
  {
    assert (audit + [last])[..|audit|] == audit;
  }

  lemma ChangedByStep(processes: map<nat, Process>, pid: nat, p: Process, user: UserId)
    requires pid in processes && !processes[pid].Finished? && p.Finished?
    ensures |ChangedBy(processes[pid := p], user)| == |ChangedBy(processes, user)| +
      if p.outcome.Reported? && p.outcome.changed && p.outcome.userId == user then 1 else 0
  {
    var before, after := ChangedBy(processes, user), ChangedBy(processes[pid := p], user);
    if p.outcome.Reported? && p.outcome.changed && p.outcome.userId == user {
      assert after == before + {pid};
    } else {
      assert after == before;
    }
  }

  /** How many events a step adds for the user: one when it reports the user changed, else none. */
  ghost predicate Accounts(s: System, s': System, user: UserId)
    requires user in s.db.users && user in s'.db.users
  {
    var before, after := EventsOf(s.db.audit, user), EventsOf(s'.db.audit, user);
    var epoch := s.db.users[user].sessionEpoch;
    if s'.db.users[user].sessionEpoch == epoch then
      after == before && |ChangedBy(s'.processes, user)| == |ChangedBy(s.processes, user)|
    else
      && s'.db.users[user].sessionEpoch == epoch + 1 && |after| == |before| + 1 && after[..|before|] == before
      && after[|before|].epochBefore == epoch && after[|before|].epochAfter == epoch + 1
      && |ChangedBy(s'.processes, user)| == |ChangedBy(s.processes, user)| + 1
  }

  lemma TransactionAccounts(s: System, pid: nat, hash: string, now: Time, user: UserId)
    requires Consistent(s) && Possible(s, Transaction(pid, hash, now)) && user in s.db.users
    ensures user in Next(s, Transaction(pid, hash, now)).db.users
    ensures Accounts(s, Next(s, Transaction(pid, hash, now)), user)
  {
    var Waiting(c, seen) := s.processes[pid];
    var committed, row := TransactCases(s.db, c, seen, hash, now);
    var (db, outcome) := Transact(s.db, c, seen, hash, now);
    ChangedByStep(s.processes, pid, Finished(c, outcome), user);
    if committed {
      EventsSnoc(s.db.audit, db.audit[|s.db.audit|], user);
    }
  }

  lemma StepAccounts(s: System, step: Step, user: UserId)
    requires Consistent(s) && Possible(s, step) && user in s.db.users
    ensures user in Next(s, step).db.users && Accounts(s, Next(s, step), user)
  {
    match step
    case Transaction(pid, hash, now) => TransactionAccounts(s, pid, hash, now, user);
    case Look(pid, found, weak) =>
      assert ChangedBy(Next(s, step).processes, user) == ChangedBy(s.processes, user) by {
        LookChangesNothing(s, pid, found, weak, user);
      }
    case Login(_, _) =>
  }

  lemma LookChangesNothing(s: System, pid: nat, found: Option<User>, weak: bool, user: UserId)
    requires Possible(s, Look(pid, found, weak))
    ensures ChangedBy(Next(s, Look(pid, found, weak)).processes, user) == ChangedBy(s.processes, user)
  {
  }

  /** Main result: in every run a user's epoch has grown by the number of events recorded for the user,
      which is the number of commands that reported a change of the user; and in commit order each event
      starts at the epoch where the one before it ended. */
  lemma {:induction false} EpochAccounting(s: System, steps: seq<Step>, user: UserId)
    requires Initial(s) && PossibleRun(s, steps) && user in s.db.users
    ensures user in Run(s, steps).db.users
    ensures var s', epoch := Run(s, steps), s.db.users[user].sessionEpoch;
      var first, all := EventsOf(s.db.audit, user), EventsOf(s'.db.audit, user);
      && |first| <= |all| && all[..|first|] == first && Chained(all[|first|..], epoch)
      && s'.db.users[user].sessionEpoch == epoch + |all| - |first|
      && |ChangedBy(s'.processes, user)| == |all| - |first|
  {
    if steps == [] {
      assert ChangedBy(s.processes, user) == {};
    } else {
      var init, step := steps[..|steps| - 1], steps[|steps| - 1];
      EpochAccounting(s, init, user);
      RunKeepsConsistent(s, init);
      var s1, s' := Run(s, init), Run(s, steps);
      StepAccounts(s1, step, user);
      ChainStep(EventsOf(s.db.audit, user), EventsOf(s1.db.audit, user), EventsOf(s'.db.audit, user),
                s.db.users[user].sessionEpoch);
    }
  }

  lemma ChainStep(first: seq<Event>, before: seq<Event>, after: seq<Event>, epoch: int)
    requires |first| <= |before| && before[..|first|] == first && Chained(before[|first|..], epoch)
    requires after == before ||
      (|after| == |before| + 1 && after[..|before|] == before
       && after[|before|].epochBefore == epoch + |before| - |first|
       && after[|before|].epochAfter == epoch + |before| - |first| + 1)
    ensures |first| <= |after| && after[..|first|] == first && Chained(after[|first|..], epoch)
  {
    if after != before {
      assert after[..|first|] == after[..|before|][..|first|];
      forall i | 0 <= i < |after| - |first|
        ensures after[|first|..][i].epochBefore == epoch + i && after[|first|..][i].epochAfter == epoch + i + 1
      {
        if i < |before| - |first| {
          assert after[..|before|][|first| + i] == before[|first|..][i];
        }
      }
    }
  }

  // ----- Enabled and disabled --------------------------------------------------------------------

  ghost predicate Coherent(u: User) {
    u.enabled <==> u.disabledAt.None?
  }

  /** The changes of the login state of one user among its events. */
  function Toggles(events: seq<Event>): seq<Command> {
    if events == [] then []
    else
      var init, last := Toggles(events[..|events| - 1]), events[|events| - 1].command;
      if last.Disable? || last.Enable? then init + [last] else init
  }

  /** Disable and enable alternate, the first one leaving the state `enabled`. */
  ghost predicate Alternates(toggles: seq<Command>, enabled: bool) {
    forall i :: 0 <= i < |toggles| ==> toggles[i] == if (i % 2 == 0) == enabled then Disable else Enable
  }

  /** The state after alternating toggles. */
  predicate StateAfter(toggles: seq<Command>, enabled: bool) {
    if toggles == [] then enabled else toggles[|toggles| - 1].Enable?
  }

  lemma TogglesSnoc(events: seq<Event>, last: Event)
    ensures Toggles(events + [last]) == Toggles(events) +
      if last.command.Disable? || last.command.Enable? then [last.command] else []
  {
    assert (events + [last])[..|events|] == events;
  }

  /** A step toggles the login state of the user exactly when it adds a disable or enable event. */
  lemma StepToggles(s: System, step: Step, user: UserId)
    requires Consistent(s) && Possible(s, step) && user in s.db.users && Coherent(s.db.users[user])
    ensures user in Next(s, step).db.users
    ensures var u, u' := s.db.users[user], Next(s, step).db.users[user];
      var before, after := EventsOf(s.db.audit, user), EventsOf(Next(s, step).db.audit, user);
      && Coherent(u')
      && (after == before ==> u'.enabled == u.enabled)
      && (after != before ==>
            && |after| == |before| + 1 && after == before + [after[|before|]]
            && (if after[|before|].command.Disable? then u.enabled && !u'.enabled
                else if after[|before|].command.Enable? then !u.enabled && u'.enabled
                else u'.enabled == u.enabled))
  {
    match step
    case Transaction(pid, hash, now) =>
      var Waiting(c, seen) := s.processes[pid];
      var committed, row := TransactCases(s.db, c, seen, hash, now);
      if committed {
        var db := Transact(s.db, c, seen, hash, now).0;
        EventsSnoc(s.db.audit, db.audit[|s.db.audit|], user);
      }
    case _ =>
  }

  /** Main result: where the row starts coherent it stays so, and the changed disable and enable commands
      of a user strictly alternate; of any number of concurrent disables, one changes the user. */
  lemma {:induction false} LoginStateAlternates(s: System, steps: seq<Step>, user: UserId)
    requires Initial(s) && PossibleRun(s, steps) && user in s.db.users && Coherent(s.db.users[user])
    ensures user in Run(s, steps).db.users
    ensures var u, u' := s.db.users[user], Run(s, steps).db.users[user];
      var first, all := EventsOf(s.db.audit, user), EventsOf(Run(s, steps).db.audit, user);
      && Coherent(u') && |first| <= |all|
      && Alternates(Toggles(all[|first|..]), u.enabled)
      && u'.enabled == StateAfter(Toggles(all[|first|..]), u.enabled)
  {
    if steps != [] {
      var init, step := steps[..|steps| - 1], steps[|steps| - 1];
      LoginStateAlternates(s, init, user);
      RunKeepsConsistent(s, init);
      var s1, s' := Run(s, init), Run(s, steps);
      StepToggles(s1, step, user);
      var first, before, after := EventsOf(s.db.audit, user), EventsOf(s1.db.audit, user), EventsOf(s'.db.audit, user);
      if after != before {
        assert after[|first|..] == before[|first|..] + [after[|before|]];
        AlternationGrows(before[|first|..], after[|before|], s.db.users[user].enabled, s1.db.users[user].enabled,
                         s'.db.users[user].enabled);
      }
    }
  }

  lemma AlternationGrows(events: seq<Event>, last: Event, enabled: bool, state: bool, state': bool)
    requires Alternates(Toggles(events), enabled) && state == StateAfter(Toggles(events), enabled)
    requires
      if last.command.Disable? then state && !state' else if last.command.Enable? then !state && state'
      else state' == state
    ensures Alternates(Toggles(events + [last]), enabled) && state' == StateAfter(Toggles(events + [last]), enabled)
  {
    TogglesSnoc(events, last);
    AlternateStep(Toggles(events), last.command, enabled);
  }

  lemma AlternateStep(toggles: seq<Command>, c: Command, enabled: bool)
    requires Alternates(toggles, enabled)
    requires c.Disable? ==> StateAfter(toggles, enabled)
    requires c.Enable? ==> !StateAfter(toggles, enabled)
    ensures c.Disable? || c.Enable? ==> Alternates(toggles + [c], enabled)
  {
  }

  // ----- Sessions --------------------------------------------------------------------------------

  /** A revocation is final, and a session keeps its user and its expiry. */
  ghost predicate SessionsKept(before: map<SessionId, Session>, after: map<SessionId, Session>) {
    forall sid :: sid in before ==>
      && sid in after && after[sid].userId == before[sid].userId && after[sid].expiresAt == before[sid].expiresAt
      && (before[sid].revokedAt.Some? ==> after[sid].revokedAt == before[sid].revokedAt)
  }

  lemma StepKeepsSessions(s: System, step: Step)
    requires Consistent(s) && Possible(s, step)
    ensures SessionsKept(s.db.sessions, Next(s, step).db.sessions)
  {
    match step
    case Transaction(pid, hash, now) =>
      var committed, row := TransactCases(s.db, s.processes[pid].command, s.processes[pid].user, hash, now);
    case _ =>
  }

  lemma {:induction false} RunKeepsSessions(s: System, steps: seq<Step>)
    requires Consistent(s) && PossibleRun(s, steps)
    ensures SessionsKept(s.db.sessions, Run(s, steps).db.sessions)
  {
    if steps != [] {
      var init := steps[..|steps| - 1];
      RunKeepsSessions(s, init);
      RunKeepsConsistent(s, init);
      StepKeepsSessions(Run(s, init), steps[|steps| - 1]);
    }
  }

  /** Main result: once a command reports a change at `now`, no session the user had then is active at
      that or any later time, in any continuation of the run. */
  lemma {:induction false} ChangeEndsSessions(s: System, pid: nat, hash: string, now: Time, later: seq<Step>,
                                              sid: SessionId, time: Time)
    requires Consistent(s) && Possible(s, Transaction(pid, hash, now))
    requires PossibleRun(Next(s, Transaction(pid, hash, now)), later)
    requires var p := Next(s, Transaction(pid, hash, now)).processes[pid];
      p.Finished? && p.outcome.Reported? && p.outcome.changed
    requires sid in s.db.sessions && s.db.sessions[sid].userId == s.processes[pid].user.id && time >= now
    ensures var sessions := Run(Next(s, Transaction(pid, hash, now)), later).db.sessions;
      sid in sessions && !IsActive(sessions[sid], s.processes[pid].user.id, time)
  {
    var s1 := Next(s, Transaction(pid, hash, now));
    var committed, row := TransactCases(s.db, s.processes[pid].command, s.processes[pid].user, hash, now);
    StepKeepsConsistent(s, Transaction(pid, hash, now));
    RunKeepsSessions(s1, later);
    assert committed;
    assert !IsActive(s1.db.sessions[sid], row.id, time);
  }

  // ----- What is never written -------------------------------------------------------------------

  /** The row, the sessions and the audit events of the user are as before. */
  ghost predicate Untouched(before: Db, after: Db, user: UserId) {
    && user in before.users && user in after.users && after.users[user] == before.users[user]
    && EventsOf(after.audit, user) == EventsOf(before.audit, user)
    && forall sid :: sid in before.sessions && before.sessions[sid].userId == user ==>
         sid in after.sessions && after.sessions[sid] == before.sessions[sid]
  }

  lemma StepTouchesOnlyTarget(s: System, step: Step, user: UserId)
    requires Consistent(s) && Possible(s, step) && user in s.db.users
    requires step.Transaction? ==> s.processes[step.pid].user.id != user
    ensures Untouched(s.db, Next(s, step).db, user)
  {
    match step
    case Transaction(pid, hash, now) =>
      var Waiting(c, seen) := s.processes[pid];
      var committed, row := TransactCases(s.db, c, seen, hash, now);
      if committed {
        var db := Transact(s.db, c, seen, hash, now).0;
        EventsSnoc(s.db.audit, db.audit[|s.db.audit|], user);
      }
    case _ =>
  }

  lemma UntouchedTransitive(a: Db, b: Db, c: Db, user: UserId)
    requires Untouched(a, b, user) && Untouched(b, c, user)
    ensures Untouched(a, c, user)
  {
  }

  /** Main result: in every run no command writes a protected fixture, its sessions or events about it. */
  lemma {:induction false} FixturesNeverWritten(s: System, steps: seq<Step>, user: UserId)
    requires Initial(s) && PossibleRun(s, steps) && user in s.db.users && IsProtectedFixture(s.db.users[user])
    ensures Untouched(s.db, Run(s, steps).db, user)
  {
    if steps != [] {
      var init, step := steps[..|steps| - 1], steps[|steps| - 1];
      FixturesNeverWritten(s, init, user);
      RunKeepsConsistent(s, init);
      StepTouchesOnlyTarget(Run(s, init), step, user);
      UntouchedTransitive(s.db, Run(s, init).db, Run(s, steps).db, user);
    }
  }

  /** Main result: a user that no running command is about is never written, whatever the others do. */
  lemma {:induction false} OthersNeverWritten(s: System, steps: seq<Step>, user: UserId)
    requires Initial(s) && PossibleRun(s, steps) && user in s.db.users
    requires forall pid :: pid in s.processes && s.processes[pid].email.Some? ==>
      s.processes[pid].email.value != s.db.users[user].email
    ensures Untouched(s.db, Run(s, steps).db, user)
    ensures forall pid :: pid in Run(s, steps).processes ==>
      match Run(s, steps).processes[pid]
      case Start(_, email) => email.Some? ==> email.value != s.db.users[user].email
      case Waiting(_, seen) => seen.id != user
      case Finished(_, _) => true
  {
    if steps != [] {
      var init, step := steps[..|steps| - 1], steps[|steps| - 1];
      OthersNeverWritten(s, init, user);
      RunKeepsConsistent(s, init);
      StepTouchesOnlyTarget(Run(s, init), step, user);
      UntouchedTransitive(s.db, Run(s, init).db, Run(s, steps).db, user);
    }
  }
}
