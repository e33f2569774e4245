/**
 `POST /auth/change-password` (server/src/auth/auth.service.ts, `changePassword`): read the
 current hash, compare and hash with no connection held, then one conditional update. Requests
 interleave with each other and with the platform's resets, which install a fresh temporary
 password (server/src/platform/platform-tenants.service.ts).

 argon2 is idealised: a hash stands for its password and its salt, and salts are never reused.
 One user row is modelled; checks of tenant and user status only refuse and are left out.
 */
module PasswordChange {
  import opened Options
  import opened Sequences

  datatype Hash = Hash(password: string, salt: nat)

  predicate VerifyPassword(password: string, h: Hash) {
    password == h.password
  }

  /** The columns of one users row. */
  datatype User = User(
    passwordHash: Hash,
    mustChangePassword: bool,
    tempPasswordExpiresAt: Option<real>,
    passwordChangedAt: Option<real>)

  datatype Phase =
    | HasRead(seen: Hash)
    | HasHashed(seen: Hash, newHash: Hash)
    | Committed
    | RefusedWeak         // same_as_temp
    | RefusedToken        // "Password change token is no longer valid"

  /** One request: the `iat` of its pwchange token and the password it chose. */
  datatype Request = Request(iat: int, password: string, phase: Phase)

  /** A successful change: who, the hash that was in the row and the one that was installed. */
  datatype Change = Change(request: nat, replaced: Hash, installed: Hash)

  /** A temporary password the platform installed, and when. */
  datatype Temp = Temp(hash: Hash, at: real)

  datatype State = State(
    user: User,
    clock: real,
    salts: set<nat>,                  // every salt drawn so far
    requests: map<nat, Request>,
    temps: seq<Temp>,
    changes: seq<Change>)

  datatype Event =
    | Tick(elapsed: real)
    | Reset(password: string, salt: nat, hours: nat, now: real)
    | Read(id: nat, iat: int, password: string)
    | HashNew(id: nat, salt: nat)
    | Update(id: nat, now: real)

  /** A user created with a temporary password, whose `password_changed_at` is still NULL. */
  function Initial(password: string, expires: real): State {
    var temp := Hash(password, 0);
    State(User(temp, true, Some(expires), None), 0.0, {0}, map[], [Temp(temp, 0.0)], [])
  }

  predicate Enabled(s: State, e: Event) {
    match e
    case Tick(elapsed) => elapsed >= 0.0
    case Reset(password, salt, hours, now) => salt !in s.salts && now <= s.clock
    case Read(id, iat, password) => id !in s.requests
    case HashNew(id, salt) => id in s.requests && s.requests[id].phase.HasRead? && salt !in s.salts
    case Update(id, now) => id in s.requests && s.requests[id].phase.HasHashed? && now <= s.clock
  }

  /** The read's checks: the password must still be temporary, the token not older than it. */
  predicate TokenStillValid(u: User, iat: int) {
    u.mustChangePassword && (u.passwordChangedAt.Some? ==> iat >= u.passwordChangedAt.value.Floor)
  }

  /** The WHERE clause of the update, run in a transaction begun at `now`. */
  predicate UpdateMatches(u: User, seen: Hash, now: real) {
    && u.mustChangePassword
    && u.passwordHash == seen
    && u.tempPasswordExpiresAt.Some? && u.tempPasswordExpiresAt.value > now
  }

  function StepOf(s: State, e: Event): State {
    match e
    case Tick(elapsed) => s.(clock := s.clock + elapsed)
    case Reset(password, salt, hours, now) =>
      var temp := Hash(password, salt);
      s.(user := User(temp, true, Some(now + 3600.0 * hours as real), Some(now)),
         salts := s.salts + {salt}, temps := s.temps + [Temp(temp, now)])
    case Read(id, iat, password) =>
      var phase := if TokenStillValid(s.user, iat) then HasRead(s.user.passwordHash) else RefusedToken;
      s.(requests := s.requests[id := Request(iat, password, phase)])
    case HashNew(id, salt) =>
      if id !in s.requests || !s.requests[id].phase.HasRead? then s
      else
        var r := s.requests[id];
        if VerifyPassword(r.password, r.phase.seen) then s.(requests := s.requests[id := r.(phase := RefusedWeak)])
        else s.(requests := s.requests[id := r.(phase := HasHashed(r.phase.seen, Hash(r.password, salt)))],
                salts := s.salts + {salt})
    case Update(id, now) =>
      if id !in s.requests || !s.requests[id].phase.HasHashed? then s
      else
        var r := s.requests[id];
        if UpdateMatches(s.user, r.phase.seen, now) then
          s.(user := User(r.phase.newHash, false, None, Some(now)),
             requests := s.requests[id := r.(phase := Committed)],
             changes := s.changes + [Change(id, s.user.passwordHash, r.phase.newHash)])
        else s.(requests := s.requests[id := r.(phase := RefusedToken)])
  }

  function Exec(init: State, events: seq<Event>): State {
    if events == [] then init else StepOf(Exec(init, Front(events)), Last(events))
  }

  ghost predicate ValidRun(init: State, events: seq<Event>) {
    events != [] ==> ValidRun(init, Front(events)) && Enabled(Exec(init, Front(events)), Last(events))
  }

  // ---------------------------------------------------------------- every run

  /** The hash is a temporary password's, installed no later than the token's `iat`, to the
      second (the password of the user's creation carries no time to compare with). */
  ghost predicate SawTemp(temps: seq<Temp>, iat: int, seen: Hash) {
    exists i :: 0 <= i < |temps| && temps[i].hash == seen && (i == 0 || iat >= temps[i].at.Floor)
  }

  /** A request in flight saw a temporary password and, once it has hashed, a different one. */
  ghost predicate RequestOk(temps: seq<Temp>, r: Request) {
    match r.phase
    case HasRead(seen) => SawTemp(temps, r.iat, seen)
    case HasHashed(seen, newHash) =>
      SawTemp(temps, r.iat, seen) && newHash.password == r.password && !VerifyPassword(r.password, seen)
    case _ => true
  }

  /** What a successful change replaced was a temporary password, known to its token and checked
      to differ from the one it installed. */
  ghost predicate ChangeOk(temps: seq<Temp>, requests: map<nat, Request>, c: Change) {
    && c.request in requests && requests[c.request].phase.Committed?
    && c.installed.password == requests[c.request].password
    && !VerifyPassword(c.installed.password, c.replaced)
    && SawTemp(temps, requests[c.request].iat, c.replaced)
  }

  ghost predicate TempsOk(s: State) {
    && s.temps != []
    && (forall i :: 0 <= i < |s.temps| ==> s.temps[i].hash.salt in s.salts)
    && (forall i, j :: 0 <= i < j < |s.temps| ==> s.temps[i].hash.salt != s.temps[j].hash.salt)
    && (s.user.mustChangePassword ==>
          && s.user.passwordHash == s.temps[|s.temps| - 1].hash
          && (|s.temps| > 1 ==> s.user.passwordChangedAt == Some(s.temps[|s.temps| - 1].at)))
  }

  ghost predicate ChangesOk(s: State) {
    && (forall k :: 0 <= k < |s.changes| ==> ChangeOk(s.temps, s.requests, s.changes[k]))
    && (forall k :: 0 <= k < |s.changes| ==>
          s.user.mustChangePassword ==> s.changes[k].replaced != s.user.passwordHash)
    && (forall k, m :: 0 <= k < m < |s.changes| ==> s.changes[k].replaced != s.changes[m].replaced)
  }

  ghost predicate Inv(s: State) {
    && TempsOk(s) && ChangesOk(s)
    && (forall id :: id in s.requests ==> RequestOk(s.temps, s.requests[id]))
  }

  lemma SawTempStays(temps: seq<Temp>, temps': seq<Temp>, iat: int, seen: Hash)
    requires SawTemp(temps, iat, seen) && temps <= temps'
    ensures SawTemp(temps', iat, seen)
  {
    var i :| 0 <= i < |temps| && temps[i].hash == seen && (i == 0 || iat >= temps[i].at.Floor);
    assert temps'[i] == temps[i];
  }

  lemma StepKeepsRequests(s: State, e: Event, id: nat)
    requires Inv(s) && Enabled(s, e) && id in StepOf(s, e).requests
    ensures RequestOk(StepOf(s, e).temps, StepOf(s, e).requests[id])
  {
    if id in s.requests {
      var r := s.requests[id];
      if r.phase.HasRead? || r.phase.HasHashed? {
        SawTempStays(s.temps, StepOf(s, e).temps, r.iat, r.phase.seen);
      }
    }
  }

  lemma StepKeepsChange(s: State, e: Event, k: nat)
    requires Inv(s) && Enabled(s, e) && k < |StepOf(s, e).changes|
    ensures ChangeOk(StepOf(s, e).temps, StepOf(s, e).requests, StepOf(s, e).changes[k])
    ensures StepOf(s, e).user.mustChangePassword ==> StepOf(s, e).changes[k].replaced != StepOf(s, e).user.passwordHash
  {
    if k < |s.changes| {
      var c := s.changes[k];
      assert ChangeOk(s.temps, s.requests, c);
      SawTempStays(s.temps, StepOf(s, e).temps, s.requests[c.request].iat, c.replaced);
    }
  }

  lemma StepKeepsInv(s: State, e: Event)
    requires Inv(s) && Enabled(s, e)
    ensures Inv(StepOf(s, e))
  {
    forall id | id in StepOf(s, e).requests ensures RequestOk(StepOf(s, e).temps, StepOf(s, e).requests[id]) {
      StepKeepsRequests(s, e, id);
    }
    forall k | 0 <= k < |StepOf(s, e).changes|
      ensures ChangeOk(StepOf(s, e).temps, StepOf(s, e).requests, StepOf(s, e).changes[k])
      ensures StepOf(s, e).user.mustChangePassword ==>
                StepOf(s, e).changes[k].replaced != StepOf(s, e).user.passwordHash
    {
      StepKeepsChange(s, e, k);
    }
  }

  lemma {:induction false} RunKeepsInv(password: string, expires: real, events: seq<Event>)
    requires ValidRun(Initial(password, expires), events)
    ensures Inv(Exec(Initial(password, expires), events))
  {
    if events != [] {
      RunKeepsInv(password, expires, Front(events));
      StepKeepsInv(Exec(Initial(password, expires), Front(events)), Last(events));
    }
  }

  /** In every interleaving each temporary password is replaced by at most one request; what
      replaced it was checked to differ from exactly that password; and the token of the request
      was not older than it. */
  lemma SingleUse(password: string, expires: real, events: seq<Event>, k: nat, m: nat)
    requires ValidRun(Initial(password, expires), events)
    requires k < |Exec(Initial(password, expires), events).changes|
    requires m < |Exec(Initial(password, expires), events).changes|
    ensures var s := Exec(Initial(password, expires), events);
            && (s.changes[k].replaced == s.changes[m].replaced ==> k == m)
            && ChangeOk(s.temps, s.requests, s.changes[k])
  {
    RunKeepsInv(password, expires, events);
  }

  /** A request that was overtaken, by a reset or by another request's change, is refused by its
      own update and leaves the row alone. */
  lemma OvertakenRequestRefused(password: string, expires: real, events: seq<Event>, id: nat, now: real)
    requires var s := Exec(Initial(password, expires), events);
             && ValidRun(Initial(password, expires), events) && Enabled(s, Update(id, now))
             && ((s.temps != [] && s.requests[id].phase.seen != s.temps[|s.temps| - 1].hash)
                 || exists k :: 0 <= k < |s.changes| && s.changes[k].replaced == s.requests[id].phase.seen)
    ensures var s := Exec(Initial(password, expires), events);
            var s' := StepOf(s, Update(id, now));
            s'.requests[id].phase == RefusedToken && s'.user == s.user && s'.changes == s.changes
  {
    RunKeepsInv(password, expires, events);
  }

  // ---------------------------------------------------------------- what is in the row

  /** A changed password is the one the last change installed; a temporary one is the last the
      platform installed. */
  ghost predicate Installed(s: State) {
    && (!s.user.mustChangePassword ==>
          && s.changes != [] && s.user.passwordHash == Last(s.changes).installed
          && s.user.tempPasswordExpiresAt.None? && s.user.passwordChangedAt.Some?)
    && (s.user.mustChangePassword ==>
          && s.temps != [] && s.user.passwordHash == Last(s.temps).hash && s.user.tempPasswordExpiresAt.Some?)
  }

  lemma StepKeepsInstalled(s: State, e: Event)
    requires Installed(s) && s.temps != []
    ensures Installed(StepOf(s, e)) && StepOf(s, e).temps != []
  {
  }

  lemma {:induction false} AlwaysInstalled(password: string, expires: real, events: seq<Event>)
    ensures Installed(Exec(Initial(password, expires), events))
    ensures Exec(Initial(password, expires), events).temps != []
  {
    if events != [] {
      hide Installed;
      AlwaysInstalled(password, expires, Front(events));
      StepKeepsInstalled(Exec(Initial(password, expires), Front(events)), Last(events));
    }
  }

  /** In every run the row holds what was installed last: the password that the last successful
      request chose, with no temporary one left, or the temporary password of the last reset. */
  lemma RowIsLatest(password: string, expires: real, events: seq<Event>)
    requires ValidRun(Initial(password, expires), events)
    ensures var s := Exec(Initial(password, expires), events);
            if s.user.mustChangePassword then
              s.temps != [] && s.user.passwordHash == s.temps[|s.temps| - 1].hash && s.user.tempPasswordExpiresAt.Some?
            else
              && s.changes != []
              && var c := s.changes[|s.changes| - 1];
                 && s.user.passwordHash == c.installed && c.request in s.requests
                 && s.user.passwordHash.password == s.requests[c.request].password
                 && s.user.passwordHash.password != c.replaced.password
                 && s.user.tempPasswordExpiresAt.None? && s.user.passwordChangedAt.Some?
  {
    AlwaysInstalled(password, expires, events);
    RunKeepsInv(password, expires, events);
  }

  /** An update commits exactly when the hash it read is still in the row, the password is still
      temporary and its expiry lies ahead; then the row holds the chosen password, and otherwise
      nothing has changed. */
  lemma UpdateCommits(password: string, expires: real, events: seq<Event>, id: nat, now: real)
    requires var s := Exec(Initial(password, expires), events);
             ValidRun(Initial(password, expires), events) && Enabled(s, Update(id, now))
    ensures var s := Exec(Initial(password, expires), events);
            var (s', r) := (StepOf(s, Update(id, now)), s.requests[id]);
            if s.user.passwordHash == r.phase.seen && s.user.mustChangePassword
               && s.user.tempPasswordExpiresAt.Some? && now < s.user.tempPasswordExpiresAt.value
            then
              && s'.requests[id].phase == Committed
              && s'.user == User(r.phase.newHash, false, None, Some(now))
              && r.phase.newHash.password == r.password && r.password != r.phase.seen.password
              && s'.changes == s.changes + [Change(id, r.phase.seen, r.phase.newHash)]
            else
              s'.requests[id].phase == RefusedToken && s'.user == s.user && s'.changes == s.changes
  {
    RunKeepsInv(password, expires, events);
    var s := Exec(Initial(password, expires), events);
    assert RequestOk(s.temps, s.requests[id]);
  }

  /** A reset installs its temporary password, with its hours to live, and touches no request. */
  lemma ResetInstalls(s: State, password: string, salt: nat, hours: nat, now: real)
    ensures var s' := StepOf(s, Reset(password, salt, hours, now));
            && s'.user == User(Hash(password, salt), true, Some(now + 3600.0 * hours as real), Some(now))
            && s'.requests == s.requests && s'.changes == s.changes
            && s'.temps == s.temps + [Temp(Hash(password, salt), now)]
  {
  }

  /** A request that nobody disturbs succeeds: if the password is still temporary, the token is not
      older than it to the second, and the chosen password differs, then the three steps before the
      expiry leave the chosen password in the row and the temporary one dead. */
  lemma UndisturbedChange(s: State, id: nat, iat: int, chosen: string, salt: nat, now: real)
    requires s.user.mustChangePassword && id !in s.requests && salt !in s.salts && now <= s.clock
    requires s.user.passwordChangedAt.Some? ==> s.user.passwordChangedAt.value.Floor <= iat
    requires s.user.tempPasswordExpiresAt.Some? && now < s.user.tempPasswordExpiresAt.value
    ensures var s1 := StepOf(s, Read(id, iat, chosen));
            var s2 := StepOf(s1, HashNew(id, salt));
            Enabled(s, Read(id, iat, chosen)) && Enabled(s1, HashNew(id, salt)) &&
            if chosen == s.user.passwordHash.password then
              s2.requests[id].phase == RefusedWeak && s2.user == s.user
            else
              && Enabled(s2, Update(id, now))
              && StepOf(s2, Update(id, now)).user == User(Hash(chosen, salt), false, None, Some(now))
  {
  }

  /** A token is refused at the read exactly when the password is no longer temporary or the token
      is older than it, to the second. */
  lemma ReadRefuses(s: State, id: nat, iat: int, chosen: string)
    ensures var phase := StepOf(s, Read(id, iat, chosen)).requests[id].phase;
            if !s.user.mustChangePassword
               || (s.user.passwordChangedAt.Some? && iat < s.user.passwordChangedAt.value.Floor)
            then phase == RefusedToken
            else phase == HasRead(s.user.passwordHash)
  {
  }
}
