/**
 How far the clocks may differ before concurrency shows (server/src/auth/auth.service.ts,
 `rotateRefreshChain`). Up to a day minus the verifier's 30 s every interleaving is serial. Beyond
 that a first token can find its chain's row when it inserts, wait, and find no row when it
 selects, because another transaction has pruned the row in between. No serial run refuses a first
 token as unknown: it would insert the row again.
 */
module RefreshSkew {
  import opened Options
  import opened Sequences
  import opened Uuid
  import opened RefreshRotation
  import opened RefreshSystem
  import opened RefreshTransactions

  ghost predicate SameAsSerial(skew: real, stmts: seq<Stmt>) {
    exists events :: ValidRun(skew, events) && Exec(events) == RunAll(stmts).Committed()
  }

  /** A first token, the one that login signed, was refused as unknown. */
  predicate FirstUnknown(e: Entry) {
    e.token.fid.None? && e.answer == Refused(RefreshUnknownChain)
  }

  // ---------------------------------------------------------------- what no serial run does

  lemma RefreshKeepsFirst(rows: Table, t: Token, now: real, next: string, pruned: set<string>)
    requires t.fid.None? && IsUuid(t.jti)
    ensures Refresh(rows, t, now, next, pruned).1 != Refused(RefreshUnknownChain)
  {
  }

  /** Whatever the skew, a serial run never refuses a first token as unknown. */
  lemma {:induction false} SerialKnowsFirst(skew: real, events: seq<Event>)
    requires ValidRun(skew, events)
    ensures forall t :: t in Exec(events).issued && t.fid.None? ==> IsUuid(t.jti)
    ensures forall i :: 0 <= i < |Exec(events).log| ==> !FirstUnknown(Exec(events).log[i])
  {
    hide Refresh;
    hide IsUuid;
    hide Verifies;
    if events != [] {
      var s, e := Exec(Front(events)), Last(events);
      SerialKnowsFirst(skew, Front(events));
      if e.Present? && e.token.fid.None? {
        RefreshKeepsFirst(s.rows, e.token, e.now, e.next, e.pruned);
      }
    }
  }

  // ---------------------------------------------------------------- a schedule beyond the bound

  lemma OneMore(skew: real, stmts: seq<Stmt>, s: Stmt)
    requires ValidSchedule(skew, stmts) && CanRun(skew, RunAll(stmts), s)
    ensures ValidSchedule(skew, stmts + [s]) && RunAll(stmts + [s]) == Run(RunAll(stmts), s)
  {
    assert Front(stmts + [s]) == stmts;
  }

  function FirstToken(id: string): Token {
    Token(id, None, 0)
  }

  function OtherToken(id: string): Token {
    Token(id, None, 1000000)
  }

  /** A chain with a row that expires at 0, another login, and nobody at work. */
  ghost predicate Idle(db: Db, a: string, b: string, a1: string) {
    && db.rows == map[a := Row(a1, Some(a), 0.0, false, None, 0)] && db.locks == map[]
    && FirstToken(a) in db.issued && OtherToken(b) in db.issued
    && (forall t :: t in db.issued ==> t.jti == a || t.jti == b || t.jti == a1)
    && (forall id :: id in db.txs ==> id == 0 && db.txs[id].next == a1)
  }

  lemma TwoLogins(skew: real, a: string, b: string) returns (stmts: seq<Stmt>)
    requires IsUuid(a) && IsUuid(b) && a != b
    ensures ValidSchedule(skew, stmts)
    ensures RunAll(stmts) == EMPTY.(issued := {FirstToken(a), OtherToken(b)})
  {
    hide IsUuid;
    OneMore(skew, [], SignIn(a, 0));
    stmts := [] + [SignIn(a, 0)];
    OneMore(skew, stmts, SignIn(b, 1000000));
    stmts := stmts + [SignIn(b, 1000000)];
    assert {} + {FirstToken(a)} + {OtherToken(b)} == {FirstToken(a), OtherToken(b)};
  }

  lemma FirstRefresh(skew: real, a: string, b: string, a1: string, b1: string, c: string) returns (stmts: seq<Stmt>)
    requires skew >= 0.0 && AllDistinct(a, b, a1, b1, c)
    ensures ValidSchedule(skew, stmts) && RunAll(stmts).clock == 0.0 && Idle(RunAll(stmts), a, b, a1)
  {
    hide IsUuid;
    hide Idle;
    stmts := TwoLogins(skew, a, b);
    var db, tx := RunAll(stmts), Tx(FirstToken(a), 0.0, 0.0, a1, Begun);
    OneMore(skew, stmts, Begin(0, FirstToken(a), 0.0, a1));
    stmts := stmts + [Begin(0, FirstToken(a), 0.0, a1)];
    assert RunAll(stmts) == db.(txs := map[0 := tx]);
    OneMore(skew, stmts, InsertRow(0));
    stmts := stmts + [InsertRow(0)];
    assert RunAll(stmts) == db.(txs := map[0 := tx.(phase := Inserting({}))], locks := map[a := 0]);
    OneMore(skew, stmts, Commit(0));
    FirstCommit(RunAll(stmts), a, b, a1);
    stmts := stmts + [Commit(0)];
  }

  lemma FirstCommit(db: Db, a: string, b: string, a1: string)
    requires db == EMPTY.(issued := {FirstToken(a), OtherToken(b)}, locks := map[a := 0],
                          txs := map[0 := Tx(FirstToken(a), 0.0, 0.0, a1, Inserting({}))])
    ensures Idle(Run(db, Commit(0)), a, b, a1) && Run(db, Commit(0)).clock == 0.0
  {
    assert Run(db, Commit(0)).locks == map[];
  }

  /** The first token is presented again, half the excess skew before the verifier drops it, and
      finds its chain's row. */
  ghost predicate Waits(db: Db, a: string, b: string, a1: string, c: string, excess: real) {
    && db.rows == map[a := Row(a1, Some(a), 0.0, false, None, 0)] && db.locks == map[]
    && db.clock == DAY + excess
    && OtherToken(b) in db.issued
    && (forall t :: t in db.issued ==> t.jti == a || t.jti == b || t.jti == a1)
    && (forall id :: id in db.txs ==> (id == 0 && db.txs[id].next == a1) || id == 1)
    && 1 in db.txs
    && db.txs[1] == Tx(FirstToken(a), CLOCK_TOLERANCE_SEC as real - excess, db.clock, c, Waiting)
  }

  lemma SecondPresentation(skew: real, before: seq<Stmt>, a: string, b: string, a1: string, b1: string, c: string,
                           excess: real) returns (stmts: seq<Stmt>)
    requires AllDistinct(a, b, a1, b1, c) && 0.0 < excess <= 1.0 && 2.0 * excess <= skew - MAX_SKEW
    requires ValidSchedule(skew, before) && RunAll(before).clock == 0.0 && Idle(RunAll(before), a, b, a1)
    ensures ValidSchedule(skew, stmts) && Waits(RunAll(stmts), a, b, a1, c, excess)
  {
    hide IsUuid;
    OneMore(skew, before, Elapse(DAY + excess));
    stmts := before + [Elapse(DAY + excess)];
    var begin := Begin(1, FirstToken(a), CLOCK_TOLERANCE_SEC as real - excess, c);
    OneMore(skew, stmts, begin);
    stmts := stmts + [begin];
    OneMore(skew, stmts, AwaitRow(1));
    stmts := stmts + [AwaitRow(1)];
  }

  /** The other chain's first refresh is at work while the first token waits. */
  ghost predicate Racing(db: Db, a: string, b: string, a1: string, b1: string, c: string, excess: real,
                         locks: map<string, nat>, phase: Phase)
  {
    && db.rows == map[a := Row(a1, Some(a), 0.0, false, None, 0)] && db.locks == locks && db.clock == DAY + excess
    && 1 in db.txs && 2 in db.txs
    && db.txs[1] == Tx(FirstToken(a), CLOCK_TOLERANCE_SEC as real - excess, db.clock, c, Waiting)
    && db.txs[2] == Tx(OtherToken(b), db.clock, db.clock, b1, phase)
  }

  lemma OtherInserts(skew: real, before: seq<Stmt>, a: string, b: string, a1: string, b1: string, c: string,
                     excess: real) returns (stmts: seq<Stmt>)
    requires skew >= 0.0 && AllDistinct(a, b, a1, b1, c) && 0.0 < excess <= 1.0
    requires ValidSchedule(skew, before) && Waits(RunAll(before), a, b, a1, c, excess)
    ensures ValidSchedule(skew, stmts)
    ensures Racing(RunAll(stmts), a, b, a1, b1, c, excess, map[b := 2], Inserting({}))
  {
    hide IsUuid;
    var begin := Begin(2, OtherToken(b), DAY + excess, b1);
    OneMore(skew, before, begin);
    stmts := before + [begin];
    assert Racing(RunAll(stmts), a, b, a1, b1, c, excess, map[], Begun);
    OneMore(skew, stmts, InsertRow(2));
    stmts := stmts + [InsertRow(2)];
  }

  /** It prunes the row. */
  lemma PruneBetween(skew: real, before: seq<Stmt>, a: string, b: string, a1: string, b1: string, c: string,
                     excess: real) returns (stmts: seq<Stmt>)
    requires skew >= 0.0 && a != b && 0.0 < excess <= 1.0 && ValidSchedule(skew, before)
    requires Racing(RunAll(before), a, b, a1, b1, c, excess, map[b := 2], Inserting({}))
    ensures ValidSchedule(skew, stmts)
    ensures var db := RunAll(stmts);
            && a !in db.rows && a !in db.locks && db.clock == DAY + excess && 1 in db.txs
            && db.txs[1] == Tx(FirstToken(a), CLOCK_TOLERANCE_SEC as real - excess, db.clock, c, Waiting)
  {
    OneMore(skew, before, PruneRow(2, a));
    stmts := before + [PruneRow(2, a)];
    var none: set<string> := {};
    assert none + {a} == {a};
    assert Racing(RunAll(stmts), a, b, a1, b1, c, excess, map[b := 2, a := 2], Inserting({a}));
    OneMore(skew, stmts, Commit(2));
    stmts := stmts + [Commit(2)];
  }

  lemma FirstTokenRefused(skew: real, a: string, b: string, a1: string, b1: string, c: string)
    returns (stmts: seq<Stmt>)
    requires skew > MAX_SKEW && AllDistinct(a, b, a1, b1, c)
    ensures ValidSchedule(skew, stmts)
    ensures RunAll(stmts).log != [] && FirstUnknown(Last(RunAll(stmts).log))
  {
    hide IsUuid;
    var excess := if skew - MAX_SKEW < 2.0 then (skew - MAX_SKEW) / 2.0 else 1.0;
    stmts := FirstRefresh(skew, a, b, a1, b1, c);
    stmts := SecondPresentation(skew, stmts, a, b, a1, b1, c, excess);
    stmts := OtherInserts(skew, stmts, a, b, a1, b1, c, excess);
    stmts := PruneBetween(skew, stmts, a, b, a1, b1, c, excess);
    OneMore(skew, stmts, LockRow(1));
    stmts := stmts + [LockRow(1)];
  }

  lemma SomeScheduleIsNotSerial(skew: real)
    requires skew > MAX_SKEW
    ensures exists stmts :: ValidSchedule(skew, stmts) && !SameAsSerial(skew, stmts)
  {
    var a := UuidFrom(0);
    var b := UuidFrom(1);
    var a1 := UuidFrom(2);
    var b1 := UuidFrom(3);
    var c := UuidFrom(4);
    var stmts := FirstTokenRefused(skew, a, b, a1, b1, c);
    forall events | ValidRun(skew, events) ensures Exec(events) != RunAll(stmts).Committed() {
      SerialKnowsFirst(skew, events);
    }
  }

  /** Every interleaving is serial if and only if Postgres's clock is ahead of the API's by at most
      a day minus the tolerance. */
  lemma SerialBoundIsExact(skew: real)
    ensures (forall stmts :: ValidSchedule(skew, stmts) ==> SameAsSerial(skew, stmts)) <==> skew <= MAX_SKEW
  {
    if skew > MAX_SKEW {
      SomeScheduleIsNotSerial(skew);
    } else {
      forall stmts | ValidSchedule(skew, stmts) ensures SameAsSerial(skew, stmts) {
        ScheduleIsSerial(skew, stmts);
      }
    }
  }
}
