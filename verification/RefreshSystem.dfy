/**
 All refresh chains of one tenant: the table refresh_families, the tokens the server signed and
 Postgres's clock, driven by logins, passing time and presented tokens
 (server/src/auth/auth.service.ts, `refreshTokenPayload` and `rotateRefreshChain`).

 A presented token is any token the server ever signed, in whoever's hands it is. It passes the
 verifier (server/src/auth/jwt-keys.service.ts) by the API's clock and is judged by Postgres's;
 `skew` bounds how far Postgres's clock is ahead when the row is judged, so it also covers the
 time the request takes.
 */
module RefreshSystem {
  import opened Options
  import opened Sequences
  import opened Uuid
  import opened RefreshRotation

  const CLOCK_TOLERANCE_SEC: int := 30
  const DAY: real := 86400.0

  /** The claims of a refresh token that its refresh reads. */
  datatype Token = Token(jti: string, fid: Option<string>, exp: int) {
    function Family(): string {
      if fid.Some? then fid.value else jti
    }

    /** The token that answers this one: same chain, same expiry, the given jti. */
    function Reissued(next: string): Token {
      Token(next, Some(Family()), exp)
    }
  }

  type Table = map<string, Row>

  /** jsonwebtoken's expiry check on whole seconds, with the 30 s tolerance of JwtVerifier. */
  predicate Verifies(t: Token, apiNow: real) {
    apiNow.Floor < t.exp + CLOCK_TOLERANCE_SEC
  }

  function Lookup(rows: Table, family: string): Option<Row> {
    if family in rows then Some(rows[family]) else None
  }

  /** What the prune deletes: rows a day past their expiry. */
  function Stale(rows: Table, now: real): set<string> {
    set k | k in rows && rows[k].expiresAt as real < now - DAY
  }

  function Inserted(rows: Table, t: Token, now: real, next: string): Table {
    rows[t.Family() := FirstRow(t.Family(), t.exp, Attempt(t.jti, now, next))]
  }

  predicate Inserts(rows: Table, t: Token) {
    t.fid.None? && t.Family() !in rows
  }

  /** The presented token creates its chain's row, and then prunes. */
  predicate Creates(rows: Table, t: Token) {
    IsUuid(t.jti) && IsUuid(t.Family()) && Inserts(rows, t)
  }

  /** rotateRefreshChain as one atomic step; `pruned` are the rows its DELETE removed. */
  function Refresh(rows: Table, t: Token, now: real, next: string, pruned: set<string>): (Table, Answer) {
    if !IsUuid(t.jti) || !IsUuid(t.Family()) then (rows, Refused(RefreshUnknownChain))
    else if Inserts(rows, t) then (Inserted(rows, t, now, next) - pruned, Honoured(next, true))
    else
      var (row, answer) := JudgeAndUpdate(Lookup(rows, t.Family()), Attempt(t.jti, now, next));
      (if row.Some? then rows[t.Family() := row.value] else rows, answer)
  }

  /** The table as the service drives it, statement by statement. */
  class RefreshFamilies {
    var rows: Table

    constructor ()
      ensures rows == map[]
    {
      rows := map[];
    }

    /** rotateRefreshChain: `now` is the transaction's clock, `nextJti` what randomUUID drew. The
        first clause is the atomic step that the laws are about; the others say on the table what
        each case does: a malformed id or an unknown chain changes nothing, a first token creates
        its row and deletes every row a day past its expiry, and a row is revoked, rotated,
        answered by grace or found reused. */
    method RotateRefreshChain(payload: Token, now: real, nextJti: string) returns (answer: Answer)
      modifies this
      ensures var f := if payload.fid.Some? then payload.fid.value else payload.jti;
              if !IsUuid(payload.jti) || !IsUuid(f) then
                rows == old(rows) && answer == Refused(RefreshUnknownChain)
              else if payload.fid.None? && f !in old(rows) then
                && answer == Honoured(nextJti, true)
                && (f in rows <==> payload.exp as real >= now - 86400.0)
                && (f in rows ==> rows[f] == Row(nextJti, Some(f), now, false, None, payload.exp))
                && (forall k :: k != f ==>
                      (k in rows <==> k in old(rows) && old(rows)[k].expiresAt as real >= now - 86400.0))
                && (forall k :: k != f && k in rows ==> rows[k] == old(rows)[k])
              else if f !in old(rows) then
                rows == old(rows) && answer == Refused(RefreshUnknownChain)
              else
                var row := old(rows)[f];
                if row.revokedAt.Some? then
                  rows == old(rows) && answer == Refused(RefreshRevoked)
                else if payload.jti == row.currentJti then
                  && rows == old(rows)[f := Row(nextJti, Some(row.currentJti), now, false, None, row.expiresAt)]
                  && answer == Honoured(nextJti, true)
                else if Some(payload.jti) == row.previousJti && !row.graceUsed && now - row.rotatedAt < 86400.0 then
                  && rows == old(rows)[f := row.(graceUsed := true)]
                  && answer == Honoured(row.currentJti, false)
                else
                  && rows == old(rows)[f := row.(revokedAt := Some(now))]
                  && answer == Refused(RefreshReused)
      ensures (rows, answer) ==
              Refresh(old(rows), payload, now, nextJti, Stale(Inserted(old(rows), payload, now, nextJti), now))
    {
      var familyId := payload.Family();
      if !IsUuid(payload.jti) || !IsUuid(familyId) {
        return Refused(RefreshUnknownChain);
      }
      if payload.fid.None? {
        var created := familyId !in rows;
        if created {
          rows := rows[familyId := Row(nextJti, Some(familyId), now, false, None, payload.exp)];
          rows := rows - Stale(rows, now);
          return Honoured(nextJti, true);
        }
      }
      var row := Lookup(rows, familyId);
      var verdict := JudgeRefresh(if row.Some? then Some(row.value.StateAt(now)) else None, payload.jti);
      match verdict {
        case Rotate =>
          rows := rows[familyId := row.value.(previousJti := Some(row.value.currentJti), currentJti := nextJti,
                                              rotatedAt := now, graceUsed := false)];
          answer := Honoured(nextJti, true);
        case Grace(jti) =>
          rows := rows[familyId := row.value.(graceUsed := true)];
          answer := Honoured(jti, false);
        case Reused =>
          rows := rows[familyId := row.value.(revokedAt := Some(now))];
          answer := Refused(RefreshReused);
        case Revoked =>
          assert rows == rows[familyId := row.value];
          answer := Refused(RefreshRevoked);
        case Unknown =>
          answer := Refused(RefreshUnknownChain);
      }
    }
  }

  // ---------------------------------------------------------------- runs

  datatype Entry = Entry(token: Token, now: real, next: string, answer: Answer)

  datatype State = State(rows: Table, issued: set<Token>, clock: real, log: seq<Entry>)

  datatype Event =
    | Login(jti: string, exp: int)
    | Tick(elapsed: real)
    | Present(token: Token, apiNow: real, now: real, next: string, pruned: set<string>)

  const INITIAL := State(map[], {}, 0.0, [])

  predicate Unused(issued: set<Token>, jti: string) {
    forall t :: t in issued ==> t.jti != jti
  }

  ghost predicate Enabled(skew: real, s: State, e: Event) {
    match e
    case Login(jti, exp) => IsUuid(jti) && Unused(s.issued, jti)
    case Tick(elapsed) => elapsed >= 0.0
    case Present(t, apiNow, now, next, pruned) =>
      && t in s.issued && Verifies(t, apiNow) && s.clock - apiNow <= skew
      && now <= s.clock
      && IsUuid(next) && Unused(s.issued, next)
      && pruned == if Creates(s.rows, t) then Stale(Inserted(s.rows, t, now, next), now) else {}
  }

  function StepOf(s: State, e: Event): State {
    match e
    case Login(jti, exp) => s.(issued := s.issued + {Token(jti, None, exp)})
    case Tick(elapsed) => s.(clock := s.clock + elapsed)
    case Present(t, apiNow, now, next, pruned) =>
      var (rows, answer) := Refresh(s.rows, t, now, next, pruned);
      State(rows,
            if answer.Honoured? then s.issued + {t.Reissued(answer.jti)} else s.issued,
            s.clock,
            s.log + [Entry(t, now, next, answer)])
  }

  function Exec(events: seq<Event>): State {
    if events == [] then INITIAL else StepOf(Exec(Front(events)), Last(events))
  }

  ghost predicate ValidRun(skew: real, events: seq<Event>) {
    events != [] ==> ValidRun(skew, Front(events)) && Enabled(skew, Exec(Front(events)), Last(events))
  }

  // ---------------------------------------------------------------- the history of one chain

  function AttemptsOf(log: seq<Entry>, family: string): seq<Attempt> {
    if log == [] then []
    else
      var e := Last(log);
      AttemptsOf(Front(log), family) +
      (if e.token.Family() == family then [Attempt(e.token.jti, e.now, e.next)] else [])
  }

  function AnswersOf(log: seq<Entry>, family: string): (r: seq<Answer>)
    ensures |r| == |AttemptsOf(log, family)|
  {
    if log == [] then []
    else AnswersOf(Front(log), family) + (if Last(log).token.Family() == family then [Last(log).answer] else [])
  }

  /** The token of a chain that carries the given jti; only the first one has no `fid`. */
  function TokenFor(family: string, jti: string, exp: int): Token {
    Token(jti, if jti == family then None else Some(family), exp)
  }

  /** What a chain's log, row and issued tokens have to do with each other: the log is a run of
      RefreshRotation's chain with one expiry, the row is where that run ends (or is gone, a day
      past the expiry), and every generation was issued with exactly that expiry. */
  ghost predicate ChainHolds(family: string, exp: int, attempts: seq<Attempt>, answers: seq<Answer>,
                             row: Option<Row>, issued: set<Token>, clock: real)
  {
    && Fresh(family, exp, attempts)
    && Answers(family, exp, attempts) == answers
    && (forall g :: g in Generations(family, exp, attempts) ==> TokenFor(family, g, exp) in issued)
    && (if row.Some? then RowAfter(family, exp, attempts) == row
        else attempts == [] || exp as real + DAY < clock)
  }

  ghost predicate TokenOk(t: Token, attempts: seq<Attempt>) {
    && t == TokenFor(t.Family(), t.jti, t.exp) && IsUuid(t.Family()) && IsUuid(t.jti)
    && t.jti in Generations(t.Family(), t.exp, attempts)
  }

  ghost predicate ChainOk(s: State, t: Token) {
    && TokenOk(t, AttemptsOf(s.log, t.Family()))
    && ChainHolds(t.Family(), t.exp, AttemptsOf(s.log, t.Family()), AnswersOf(s.log, t.Family()),
                  Lookup(s.rows, t.Family()), s.issued, s.clock)
  }

  ghost predicate Inv(s: State) {
    && (forall t {:trigger ChainOk(s, t)} :: t in s.issued ==> ChainOk(s, t))
    && Unambiguous(s.issued)
    && (forall k :: k in s.rows ==> !Unused(s.issued, k))
    && (forall i :: 0 <= i < |s.log| ==> LogOk(s.issued, s.log[i]))
  }

  ghost predicate Unambiguous(issued: set<Token>) {
    forall t, u :: t in issued && u in issued && t.jti == u.jti ==> t == u
  }

  ghost predicate LogOk(issued: set<Token>, e: Entry) {
    e.token in issued && e.answer != Refused(RefreshUnknownChain)
  }

  lemma SameChainSameExpiry(s: State, t: Token, u: Token)
    requires Inv(s) && t in s.issued && u in s.issued && t.Family() == u.Family()
    ensures t.exp == u.exp
  {
    assert ChainOk(s, t) && ChainOk(s, u);
    var f := t.Family();
    assert TokenFor(f, f, t.exp) in s.issued by {
      assert Generations(f, t.exp, AttemptsOf(s.log, f))[0] in Generations(f, t.exp, AttemptsOf(s.log, f));
    }
    assert TokenFor(f, f, u.exp) in s.issued by {
      assert Generations(f, u.exp, AttemptsOf(s.log, f))[0] in Generations(f, u.exp, AttemptsOf(s.log, f));
    }
  }

  /** The largest skew under which a pruned chain is never met: a day minus the tolerance. */
  const MAX_SKEW: real := DAY - CLOCK_TOLERANCE_SEC as real

  /** A token that verifies belongs to a chain that no prune can have touched. */
  lemma VerifyingChainIsNotStale(skew: real, s: State, t: Token, apiNow: real)
    requires skew <= MAX_SKEW && Verifies(t, apiNow) && s.clock - apiNow <= skew
    ensures s.clock < t.exp as real + DAY
  {
    assert apiNow < (t.exp + CLOCK_TOLERANCE_SEC) as real;
  }

  /** A row that is there is kept, and its chain is not unknown. */
  lemma JudgedKnows(row: Option<Row>, a: Attempt)
    ensures row.Some? ==>
              JudgeAndUpdate(row, a).0.Some? && JudgeAndUpdate(row, a).1 != Refused(RefreshUnknownChain)
  {
  }

  /** On the presented token's own chain the table step is the chain step. */
  lemma RefreshIsChainStep(skew: real, s: State, e: Event)
    requires skew <= MAX_SKEW && Inv(s) && e.Present? && Enabled(skew, s, e)
    ensures var (t, f) := (e.token, e.token.Family());
            var row := RowAfter(f, t.exp, AttemptsOf(s.log, f));
            var (row', answer) := Step(f, t.exp, row, Attempt(t.jti, e.now, e.next));
            && Refresh(s.rows, t, e.now, e.next, e.pruned).1 == answer
            && row'.Some? && Lookup(Refresh(s.rows, t, e.now, e.next, e.pruned).0, f) == row'
            && answer != Refused(RefreshUnknownChain)
  {
    hide JudgeAndUpdate;
    var t, f := e.token, e.token.Family();
    assert ChainOk(s, t);
    VerifyingChainIsNotStale(skew, s, t, e.apiNow);
    assert f !in e.pruned;
    JudgedKnows(RowAfter(f, t.exp, AttemptsOf(s.log, f)), Attempt(t.jti, e.now, e.next));
    RowHoldsYoungest(f, t.exp, AttemptsOf(s.log, f));
  }

  /** Other chains keep their row or lose it to the prune. */
  lemma RefreshLeavesOthers(rows: Table, t: Token, now: real, next: string, pruned: set<string>, k: string)
    requires k != t.Family() && (Creates(rows, t) ==> pruned <= Stale(Inserted(rows, t, now, next), now))
    ensures var row' := Lookup(Refresh(rows, t, now, next, pruned).0, k);
            || row' == Lookup(rows, k)
            || (row'.None? && k in rows && rows[k].expiresAt as real + DAY < now)
  {
  }

  lemma OtherChainHolds(family: string, exp: int, attempts: seq<Attempt>, answers: seq<Answer>,
                        row: Option<Row>, issued: set<Token>, clock: real,
                        row': Option<Row>, issued': set<Token>, clock': real)
    requires ChainHolds(family, exp, attempts, answers, row, issued, clock)
    requires issued <= issued' && clock <= clock'
    requires row' == row || (row'.None? && row.Some? && row.value.expiresAt as real + DAY < clock')
    ensures ChainHolds(family, exp, attempts, answers, row', issued', clock')
  {
    RowHoldsYoungest(family, exp, attempts);
  }

  lemma PresentedChainHolds(family: string, exp: int, attempts: seq<Attempt>, answers: seq<Answer>,
                            row: Option<Row>, issued: set<Token>, clock: real, a: Attempt, issued': set<Token>)
    requires ChainHolds(family, exp, attempts, answers, row, issued, clock)
    requires Unused(issued, a.next)
    requires var (row', answer) := Step(family, exp, RowAfter(family, exp, attempts), a);
             && row'.Some?
             && issued' == if answer.Honoured? then issued + {Token(answer.jti, Some(family), exp)} else issued
    ensures var (row', answer) := Step(family, exp, RowAfter(family, exp, attempts), a);
            && ChainHolds(family, exp, attempts + [a], answers + [answer], row', issued', clock)
            && (answer.Honoured? ==>
                  && answer.jti in Generations(family, exp, attempts + [a])
                  && TokenFor(family, answer.jti, exp) == Token(answer.jti, Some(family), exp))
            && Generations(family, exp, attempts) <= Generations(family, exp, attempts + [a])
  {
    hide Step;
    var g := Generations(family, exp, attempts);
    assert Front(attempts + [a]) == attempts;
    RowHoldsYoungest(family, exp, attempts);
    AnsweredJti(family, exp, g, RowAfter(family, exp, attempts), a);
    assert a.next !in g by {
      assert a.next in g ==> TokenFor(family, a.next, exp) in issued;
    }
    assert g[0] == family;
  }

  /** What an event leaves of a chain it does not touch. */
  ghost predicate Untouched(s: State, s': State, f: string) {
    && AttemptsOf(s'.log, f) == AttemptsOf(s.log, f)
    && AnswersOf(s'.log, f) == AnswersOf(s.log, f)
    && s.issued <= s'.issued && s.clock <= s'.clock
    && (|| Lookup(s'.rows, f) == Lookup(s.rows, f)
        || (f !in s'.rows && f in s.rows && s.rows[f].expiresAt as real + DAY < s'.clock))
  }

  lemma EventLeavesOthers(skew: real, s: State, e: Event, f: string)
    requires Enabled(skew, s, e) && (e.Present? ==> f != e.token.Family())
    ensures Untouched(s, StepOf(s, e), f)
  {
    if e.Present? {
      RefreshLeavesOthers(s.rows, e.token, e.now, e.next, e.pruned, f);
      assert Front(StepOf(s, e).log) == s.log;
    }
  }

  lemma OtherChainStays(s: State, s': State, u: Token)
    requires ChainOk(s, u) && Untouched(s, s', u.Family())
    ensures ChainOk(s', u)
  {
    var f := u.Family();
    OtherChainHolds(f, u.exp, AttemptsOf(s.log, f), AnswersOf(s.log, f), Lookup(s.rows, f), s.issued, s.clock,
                    Lookup(s'.rows, f), s'.issued, s'.clock);
  }

  /** What a presented token does to its own chain. */
  ghost predicate AnswersOn(s: State, s': State, t: Token, a: Attempt, answer: Answer) {
    var f := t.Family();
    && AttemptsOf(s'.log, f) == AttemptsOf(s.log, f) + [a]
    && AnswersOf(s'.log, f) == AnswersOf(s.log, f) + [answer]
    && (var (row', answer') := Step(f, t.exp, RowAfter(f, t.exp, AttemptsOf(s.log, f)), a);
        row'.Some? && Lookup(s'.rows, f) == row' && answer == answer')
    && s'.issued == (if answer.Honoured? then s.issued + {Token(answer.jti, Some(f), t.exp)} else s.issued)
    && s'.clock == s.clock
  }

  lemma LogGrows(log: seq<Entry>, e: Entry)
    ensures AttemptsOf(log + [e], e.token.Family()) ==
            AttemptsOf(log, e.token.Family()) + [Attempt(e.token.jti, e.now, e.next)]
    ensures AnswersOf(log + [e], e.token.Family()) == AnswersOf(log, e.token.Family()) + [e.answer]
  {
    assert Front(log + [e]) == log;
  }

  lemma EventPresents(skew: real, s: State, e: Event)
    requires skew <= MAX_SKEW && Inv(s) && e.Present? && Enabled(skew, s, e)
    ensures AnswersOn(s, StepOf(s, e), e.token, Attempt(e.token.jti, e.now, e.next), Last(StepOf(s, e).log).answer)
  {
    RefreshIsChainStep(skew, s, e);
    hide Inv;
    hide Enabled;
    hide Refresh;
    hide Step;
    hide RowAfter;
    hide AttemptsOf;
    hide AnswersOf;
    LogGrows(s.log, Last(StepOf(s, e).log));
  }

  lemma PresentedChainStays(s: State, s': State, t: Token, a: Attempt, answer: Answer, u: Token)
    requires ChainOk(s, t) && AnswersOn(s, s', t, a, answer) && Unused(s.issued, a.next)
    requires u.Family() == t.Family() && u in s'.issued
    requires u in s.issued ==> ChainOk(s, u) && u.exp == t.exp
    requires IsUuid(a.next)
    ensures ChainOk(s', u)
  {
    hide Step;
    hide RowAfter;
    hide Fresh;
    hide Answers;
    var f := t.Family();
    var g, row := Generations(f, t.exp, AttemptsOf(s.log, f)), RowAfter(f, t.exp, AttemptsOf(s.log, f));
    PresentedChainHolds(f, t.exp, AttemptsOf(s.log, f), AnswersOf(s.log, f), Lookup(s.rows, f), s.issued, s.clock,
                        a, s'.issued);
    RowHoldsYoungest(f, t.exp, AttemptsOf(s.log, f));
    AnsweredJti(f, t.exp, g, row, a);
    if answer.Honoured? && !answer.rotation {
      assert answer.jti in g;
      assert TokenFor(f, answer.jti, t.exp) in s.issued;
    }
  }

  lemma NewLoginOk(skew: real, s: State, e: Event)
    requires Inv(s) && e.Login? && Enabled(skew, s, e)
    ensures ChainOk(StepOf(s, e), Token(e.jti, None, e.exp))
  {
    NoHistory(s, s.log, e.jti);
  }

  /** A jti that no issued token carries names no chain yet. */
  lemma {:induction false} NoHistory(s: State, log: seq<Entry>, jti: string)
    requires Inv(s) && log <= s.log && Unused(s.issued, jti)
    ensures AttemptsOf(log, jti) == []
  {
    if log != [] {
      NoHistory(s, Front(log), jti);
      var t := Last(log).token;
      assert s.log[|log| - 1] == Last(log);
      assert ChainOk(s, t);
      var g := Generations(t.Family(), t.exp, AttemptsOf(s.log, t.Family()));
      assert g[0] in g;
      assert TokenFor(t.Family(), t.Family(), t.exp) in s.issued;
    }
  }

  lemma StepKeepsChains(skew: real, s: State, e: Event, u: Token)
    requires skew <= MAX_SKEW && Inv(s) && Enabled(skew, s, e) && u in StepOf(s, e).issued
    ensures ChainOk(StepOf(s, e), u)
  {
    if e.Present? && u.Family() == e.token.Family() {
      assert ChainOk(s, e.token);
      EventPresents(skew, s, e);
      if u in s.issued {
        assert ChainOk(s, u);
        SameChainSameExpiry(s, e.token, u);
      }
      PresentedChainStays(s, StepOf(s, e), e.token, Attempt(e.token.jti, e.now, e.next),
                          Last(StepOf(s, e).log).answer, u);
    } else if u in s.issued {
      assert ChainOk(s, u);
      EventLeavesOthers(skew, s, e, u.Family());
      OtherChainStays(s, StepOf(s, e), u);
    } else {
      NewLoginOk(skew, s, e);
    }
  }

  lemma StepKeepsInv(skew: real, s: State, e: Event)
    requires skew <= MAX_SKEW && Inv(s) && Enabled(skew, s, e)
    ensures Inv(StepOf(s, e))
  {
    StepKeepsAllChains(skew, s, e);
    StepIsUnambiguous(skew, s, e);
    StepKeepsLog(skew, s, e);
  }

  lemma StepKeepsAllChains(skew: real, s: State, e: Event)
    requires skew <= MAX_SKEW && Inv(s) && Enabled(skew, s, e)
    ensures forall u {:trigger ChainOk(StepOf(s, e), u)} :: u in StepOf(s, e).issued ==> ChainOk(StepOf(s, e), u)
  {
    forall u | u in StepOf(s, e).issued ensures ChainOk(StepOf(s, e), u) {
      StepKeepsChains(skew, s, e, u);
    }
  }

  lemma StepKeepsLog(skew: real, s: State, e: Event)
    requires skew <= MAX_SKEW && Inv(s) && Enabled(skew, s, e)
    ensures var s' := StepOf(s, e);
            && (forall k :: k in s'.rows ==> !Unused(s'.issued, k))
            && (forall i :: 0 <= i < |s'.log| ==> LogOk(s'.issued, s'.log[i]))
  {
    var s' := StepOf(s, e);
    if e.Present? {
      RefreshIsChainStep(skew, s, e);
      assert ChainOk(s, e.token);
    }
    forall k | k in s'.rows ensures !Unused(s'.issued, k) {
      if k in s.rows {
        var t :| t in s.issued && t.jti == k;
        assert t in s'.issued;
      } else {
        assert e.token in s'.issued && e.token.jti == k;
      }
    }
    assert forall i :: 0 <= i < |s.log| ==> s'.log[i] == s.log[i];
  }

  lemma OneMoreUnambiguous(issued: set<Token>, t: Token)
    requires Unambiguous(issued) && (t in issued || Unused(issued, t.jti))
    ensures Unambiguous(issued + {t})
  {
  }

  lemma StepIsUnambiguous(skew: real, s: State, e: Event)
    requires skew <= MAX_SKEW && Inv(s) && Enabled(skew, s, e)
    ensures Unambiguous(StepOf(s, e).issued)
  {
    hide Unambiguous;
    hide Refresh;
    hide Step;
    hide RowAfter;
    if e.Present? {
      var t, f := e.token, e.token.Family();
      var g := Generations(f, t.exp, AttemptsOf(s.log, f));
      assert ChainOk(s, t);
      RefreshIsChainStep(skew, s, e);
      RowHoldsYoungest(f, t.exp, AttemptsOf(s.log, f));
      AnsweredJti(f, t.exp, g, RowAfter(f, t.exp, AttemptsOf(s.log, f)), Attempt(t.jti, e.now, e.next));
      var answer := Refresh(s.rows, t, e.now, e.next, e.pruned).1;
      if answer.Honoured? {
        if !answer.rotation {
          assert answer.jti in g;
          assert TokenFor(f, answer.jti, t.exp) in s.issued;
          assert TokenFor(f, answer.jti, t.exp) == t.Reissued(answer.jti);
        }
        OneMoreUnambiguous(s.issued, t.Reissued(answer.jti));
      }
    } else if e.Login? {
      OneMoreUnambiguous(s.issued, Token(e.jti, None, e.exp));
    }
  }

  lemma {:induction false} RunKeepsInv(skew: real, events: seq<Event>)
    requires skew <= MAX_SKEW && ValidRun(skew, events)
    ensures Inv(Exec(events))
  {
    if events != [] {
      RunKeepsInv(skew, Front(events));
      StepKeepsInv(skew, Exec(Front(events)), Last(events));
    }
  }

  /** In every run, whatever the other chains and the prune do, the history of each chain is a
      run of RefreshRotation's chain whose tokens all carry one expiry; so every law of that
      chain is a law of the table. */
  lemma ChainHistory(skew: real, events: seq<Event>, t: Token)
    requires skew <= MAX_SKEW && ValidRun(skew, events) && t in Exec(events).issued
    ensures var f, attempts := t.Family(), AttemptsOf(Exec(events).log, t.Family());
            && Fresh(f, t.exp, attempts)
            && AnswersOf(Exec(events).log, f) == Answers(f, t.exp, attempts)
            && t.jti in Generations(f, t.exp, attempts)
            && (f in Exec(events).rows ==> Exec(events).rows[f].expiresAt == t.exp)
  {
    RunKeepsInv(skew, events);
    assert ChainOk(Exec(events), t);
    RowHoldsYoungest(t.Family(), t.exp, AttemptsOf(Exec(events).log, t.Family()));
  }

  // ---------------------------------------------------------------- laws of the whole log

  /** Where entry i stands in its chain's history. */
  function Position(log: seq<Entry>, i: nat): nat
    requires i < |log|
  {
    |AttemptsOf(log[..i], log[i].token.Family())|
  }

  lemma {:induction false} HistoryPrefix(log: seq<Entry>, i: nat, f: string)
    requires i <= |log|
    ensures AttemptsOf(log[..i], f) <= AttemptsOf(log, f)
    ensures AnswersOf(log[..i], f) <= AnswersOf(log, f)
  {
    if i == |log| {
      assert log[..i] == log;
    } else {
      HistoryPrefix(Front(log), i, f);
      assert Front(log)[..i] == log[..i];
    }
  }

  lemma EntryInHistory(log: seq<Entry>, i: nat)
    requires i < |log|
    ensures var f, p := log[i].token.Family(), Position(log, i);
            && p < |AttemptsOf(log, f)|
            && AttemptsOf(log, f)[p] == Attempt(log[i].token.jti, log[i].now, log[i].next)
            && AnswersOf(log, f)[p] == log[i].answer
            && |AttemptsOf(log[..i + 1], f)| == p + 1
  {
    var f := log[i].token.Family();
    assert Front(log[..i + 1]) == log[..i];
    HistoryPrefix(log, i + 1, f);
  }

  lemma LaterInHistory(log: seq<Entry>, i: nat, k: nat)
    requires i < k < |log| && log[i].token.Family() == log[k].token.Family()
    ensures Position(log, i) < Position(log, k)
  {
    EntryInHistory(log, i);
    assert log[..k][..i + 1] == log[..i + 1];
    HistoryPrefix(log[..k], i + 1, log[i].token.Family());
  }

  /** Two honoured presentations of one token got the same successor, the first by rotation and
      the second by grace. */
  lemma HonouredAlike(skew: real, events: seq<Event>, i: nat, k: nat)
    requires skew <= MAX_SKEW && ValidRun(skew, events)
    requires var log := Exec(events).log;
             && i < k < |log| && log[i].token.jti == log[k].token.jti
             && log[i].answer.Honoured? && log[k].answer.Honoured?
    ensures var log := Exec(events).log;
            log[i].answer.rotation && !log[k].answer.rotation && log[i].answer.jti == log[k].answer.jti
  {
    var s := Exec(events);
    RunKeepsInv(skew, events);
    assert LogOk(s.issued, s.log[i]) && LogOk(s.issued, s.log[k]);
    var t := s.log[i].token;
    ChainHistory(skew, events, t);
    EntryInHistory(s.log, i);
    EntryInHistory(s.log, k);
    LaterInHistory(s.log, i, k);
    HonouredTwice(t.Family(), t.exp, AttemptsOf(s.log, t.Family()), Position(s.log, i), Position(s.log, k));
    NeverForks(t.Family(), t.exp, AttemptsOf(s.log, t.Family()), Position(s.log, i), Position(s.log, k));
  }

  /** No token of a chain is honoured after one of them was refused as reused. */
  lemma ReusedChainIsDead(skew: real, events: seq<Event>, i: nat, k: nat)
    requires skew <= MAX_SKEW && ValidRun(skew, events)
    requires var log := Exec(events).log;
             && i < k < |log| && log[i].token.Family() == log[k].token.Family()
             && log[i].answer == Refused(RefreshReused)
    ensures Exec(events).log[k].answer == Refused(RefreshRevoked)
  {
    var s := Exec(events);
    RunKeepsInv(skew, events);
    assert LogOk(s.issued, s.log[i]);
    var t := s.log[i].token;
    ChainHistory(skew, events, t);
    EntryInHistory(s.log, i);
    EntryInHistory(s.log, k);
    LaterInHistory(s.log, i, k);
    ReuseEndsChain(t.Family(), t.exp, AttemptsOf(s.log, t.Family()), Position(s.log, i), Position(s.log, k));
  }

  // ---------------------------------------------------------------- what a run leaves behind

  /** An honoured refresh signs the answered jti with the presented token's chain and expiry. */
  predicate SignedBy(t: Token, e: Entry) {
    && e.answer.Honoured? && t.jti == e.answer.jti && t.exp == e.token.exp
    && t.fid == Some(if e.token.fid.Some? then e.token.fid.value else e.token.jti)
  }

  /** The tokens in circulation are those that a login signed and those that an honoured refresh
      signed. */
  lemma {:induction false} IssuedExactly(events: seq<Event>, t: Token)
    ensures t in Exec(events).issued <==>
            || (t.fid.None? && Login(t.jti, t.exp) in events)
            || exists i :: 0 <= i < |Exec(events).log| && SignedBy(t, Exec(events).log[i])
  {
    hide Refresh;
    if events != [] {
      var before, e := Exec(Front(events)), Last(events);
      IssuedExactly(Front(events), t);
      assert events == Front(events) + [e];
      var log, log' := before.log, Exec(events).log;
      if e.Present? {
        assert log' == log + [Last(log')];
      }
      assert log <= log';
    }
  }

  /** The log holds the presented tokens in order, each with its transaction's clock and the jti
      drawn for it. */
  lemma {:induction false} LogIsPresented(events: seq<Event>) returns (at: seq<nat>)
    ensures Ascending(at) && |at| == |Exec(events).log|
    ensures forall i: nat :: i in at <==> i < |events| && events[i].Present?
    ensures forall j :: 0 <= j < |at| ==>
              && at[j] < |events| && events[at[j]].Present?
              && var (e, p) := (Exec(events).log[j], events[at[j]]);
                 e.token == p.token && e.now == p.now && e.next == p.next
  {
    hide Refresh;
    hide Ascending;
    at := [];
    if events == [] {
      NothingAscends();
    } else {
      var n := |events| - 1;
      var before := LogIsPresented(Front(events));
      var log := Exec(Front(events)).log;
      assert log <= Exec(events).log;
      AscendingNext(before, n);
      at := if events[n].Present? then before + [n] else before;
      forall i: nat ensures i in at <==> i < |events| && events[i].Present? {
        if i < n {
          assert Front(events)[i] == events[i];
        }
      }
      forall j | 0 <= j < |before|
        ensures Front(events)[before[j]] == events[before[j]] && Exec(events).log[j] == log[j]
      {
      }
    }
  }

  // ---------------------------------------------------------------- the prune and clock skew

  ghost predicate MeetsUnknown(s: State) {
    exists i :: 0 <= i < |s.log| && s.log[i].answer == Refused(RefreshUnknownChain)
  }

  lemma Extends(skew: real, events: seq<Event>, e: Event)
    requires ValidRun(skew, events) && Enabled(skew, Exec(events), e)
    ensures ValidRun(skew, events + [e]) && Exec(events + [e]) == StepOf(Exec(events), e)
  {
    assert Front(events + [e]) == events;
  }

  lemma ExtendsTwice(skew: real, before: seq<Event>, e: Event, f: Event) returns (events: seq<Event>)
    requires ValidRun(skew, before) && Enabled(skew, Exec(before), e) && Enabled(skew, StepOf(Exec(before), e), f)
    ensures ValidRun(skew, events) && Exec(events) == StepOf(StepOf(Exec(before), e), f)
  {
    Extends(skew, before, e);
    Extends(skew, before + [e], f);
    events := before + [e] + [f];
  }

  /** Five ids, all of them different. */
  ghost predicate AllDistinct(a: string, b: string, a1: string, b1: string, c: string) {
    && IsUuid(a) && IsUuid(b) && IsUuid(a1) && IsUuid(b1) && IsUuid(c)
    && a != b && a != a1 && a != b1 && a != c && b != a1 && b != b1 && b != c && a1 != b1 && a1 != c && b1 != c
  }

  /** Two logins, and the first one refreshed once. */
  lemma TwoChains(skew: real, a: string, b: string, a1: string) returns (events: seq<Event>)
    requires skew > MAX_SKEW && IsUuid(a) && IsUuid(b) && IsUuid(a1) && a != b && a != a1 && b != a1
    ensures ValidRun(skew, events)
    ensures var s := Exec(events);
            && s.rows == map[a := Row(a1, Some(a), 0.0, false, None, 0)]
            && s.issued == {Token(a, None, 0), Token(b, None, 1000000), Token(a1, Some(a), 0)}
            && s.clock == 0.0
  {
    var p := Present(Token(a, None, 0), 0.0, 0.0, a1, {});
    Extends(skew, [], Login(a, 0));
    Extends(skew, [] + [Login(a, 0)], Login(b, 1000000));
    events := [] + [Login(a, 0)] + [Login(b, 1000000)];
    assert Exec(events) == State(map[], {Token(a, None, 0), Token(b, None, 1000000)}, 0.0, []);
    Extends(skew, events, p);
    events := events + [p];
  }

  lemma PruneStep(skew: real, s: State, a: string, b: string, a1: string, b1: string, late: real)
    requires skew >= 0.0 && a != b && b1 != a && b1 != b && b1 != a1 && IsUuid(b) && IsUuid(b1)
    requires s.rows == map[a := Row(a1, Some(a), 0.0, false, None, 0)]
    requires s.issued == {Token(a, None, 0), Token(b, None, 1000000), Token(a1, Some(a), 0)}
    requires s.clock == late && DAY < late < 2.0 * DAY
    ensures var e := Present(Token(b, None, 1000000), late, late, b1, {a});
            && Enabled(skew, s, e)
            && a !in StepOf(s, e).rows
            && StepOf(s, e).issued == s.issued + {Token(b1, Some(b), 1000000)}
            && StepOf(s, e).clock == late
  {
    assert Inserted(s.rows, Token(b, None, 1000000), late, b1)[a] == s.rows[a];
  }

  lemma UnknownStep(skew: real, s: State, a: string, a1: string, c: string, excess: real)
    requires 0.0 < excess <= 1.0 && 2.0 * excess <= skew - MAX_SKEW
    requires IsUuid(a) && IsUuid(a1) && IsUuid(c) && Unused(s.issued, c)
    requires a !in s.rows && Token(a1, Some(a), 0) in s.issued && s.clock == DAY + excess
    ensures var e := Present(Token(a1, Some(a), 0), CLOCK_TOLERANCE_SEC as real - excess, DAY + excess, c, {});
            && Enabled(skew, s, e)
            && StepOf(s, e).log == s.log + [Entry(e.token, e.now, c, Refused(RefreshUnknownChain))]
  {
  }

  lemma UnusedAfterPrune(a: string, b: string, a1: string, b1: string, c: string)
    requires AllDistinct(a, b, a1, b1, c)
    ensures Unused({Token(a, None, 0), Token(b, None, 1000000), Token(a1, Some(a), 0)} +
                   {Token(b1, Some(b), 1000000)}, c)
  {
  }

  /** The other chain's first refresh, a day past the first chain's expiry, prunes that chain. */
  lemma ChainPruned(skew: real, a: string, b: string, a1: string, b1: string, c: string, late: real)
    returns (events: seq<Event>)
    requires skew > MAX_SKEW && AllDistinct(a, b, a1, b1, c) && DAY < late < 2.0 * DAY
    ensures ValidRun(skew, events)
    ensures var s := Exec(events);
            && a !in s.rows && s.clock == late && Token(a1, Some(a), 0) in s.issued && Unused(s.issued, c)
  {
    var before := TwoChains(skew, a, b, a1);
    var prune := Present(Token(b, None, 1000000), late, late, b1, {a});
    PruneStep(skew, Exec(before).(clock := late), a, b, a1, b1, late);
    events := ExtendsTwice(skew, before, Tick(late), prune);
    UnusedAfterPrune(a, b, a1, b1, c);
  }

  /** The pruned chain's current token is then presented, half the excess skew before the
      verifier drops it. */
  lemma PrunedTooEarly(skew: real, a: string, b: string, a1: string, b1: string, c: string) returns (events: seq<Event>)
    requires skew > MAX_SKEW && AllDistinct(a, b, a1, b1, c)
    ensures ValidRun(skew, events) && MeetsUnknown(Exec(events))
  {
    var excess := if skew - MAX_SKEW < 2.0 then (skew - MAX_SKEW) / 2.0 else 1.0;
    var before := ChainPruned(skew, a, b, a1, b1, c, DAY + excess);
    UnknownStep(skew, Exec(before), a, a1, c, excess);
    var last := Present(Token(a1, Some(a), 0), CLOCK_TOLERANCE_SEC as real - excess, DAY + excess, c, {});
    Extends(skew, before, last);
    events := before + [last];
    assert Last(StepOf(Exec(before), last).log).answer == Refused(RefreshUnknownChain);
  }

  lemma UuidFrom(k: nat) returns (id: string)
    requires k < 10
    ensures IsUuid(id) && id[35] == "0123456789"[k]
  {
    id := "00000000-0000-7000-8000-00000000000" + ["0123456789"[k]];
  }

  lemma SkewedRunMeetsUnknown(skew: real)
    requires skew > MAX_SKEW
    ensures exists events :: ValidRun(skew, events) && MeetsUnknown(Exec(events))
  {
    var a := UuidFrom(0);
    var b := UuidFrom(1);
    var a1 := UuidFrom(2);
    var b1 := UuidFrom(3);
    var c := UuidFrom(4);
    var events := PrunedTooEarly(skew, a, b, a1, b1, c);
  }

  /** A token that passes the verifier can fail to find its chain if and only if Postgres's clock
      may be ahead of the API's by more than a day minus the tolerance. */
  lemma SkewBoundIsExact(skew: real)
    ensures (exists events :: ValidRun(skew, events) && MeetsUnknown(Exec(events))) <==> skew > MAX_SKEW
  {
    if skew > MAX_SKEW {
      SkewedRunMeetsUnknown(skew);
    } else {
      forall events | ValidRun(skew, events) ensures !MeetsUnknown(Exec(events)) {
        RunKeepsInv(skew, events);
      }
    }
  }
}
