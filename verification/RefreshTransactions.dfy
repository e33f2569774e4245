/**
 rotateRefreshChain as Postgres runs it (server/src/auth/auth.service.ts): every refresh is a
 transaction of several statements, and the statements of many transactions interleave.

 READ COMMITTED is modelled by a committed table, a lock per row key and a write buffer per
 transaction. An INSERT ... ON CONFLICT DO NOTHING of a key that another transaction has
 inserted or is deleting waits, as does a SELECT ... FOR UPDATE of a locked row: a waiting step
 is one that is not enabled. An INSERT that meets a committed row moves on at once, also where
 Postgres would first wait for that row's writer: the model has those schedules and more. The
 DELETE of stale rows takes them one by one and waits for locked ones; two transactions that prune
 the same rows in different orders can wait for each other. A transaction may abort at any point,
 which drops its buffer and its locks; that is also how Postgres ends a deadlock.

 The module proves that every interleaving has the replies, the log and the table of a serial
 run of RefreshSystem's atomic steps, in the order of the commits.
 */
module RefreshTransactions {
  import opened Options
  import opened Sequences
  import opened Uuid
  import opened RefreshRotation
  import opened RefreshSystem
  import opened RefreshClients
  import RefreshHolders

  datatype Phase =
    | Begun
    | Waiting                                    // about to SELECT ... FOR UPDATE
    | Inserting(doomed: set<string>)             // own row inserted, stale rows being deleted
    | Judged(row: Row, answer: Answer)           // row locked, its new version written
    | Finished(entry: nat, answer: Answer)       // replied; the position of the reply in the log
    | Aborted

  datatype Tx = Tx(token: Token, apiNow: real, start: real, next: string, phase: Phase) {
    function Try(): Attempt {
      Attempt(token.jti, start, next)
    }

    predicate WellNamed() {
      IsUuid(token.jti) && IsUuid(token.Family())
    }
  }

  datatype Db = Db(
    rows: Table,
    issued: set<Token>,
    clock: real,
    log: seq<Entry>,
    locks: map<string, nat>,
    txs: map<nat, Tx>)
  {
    function Committed(): State {
      State(rows, issued, clock, log)
    }

    function To(id: nat, phase: Phase): Db
      requires id in txs
    {
      this.(txs := txs[id := txs[id].(phase := phase)])
    }

    function Unlocked(id: nat): Db {
      this.(locks := map k | k in locks && locks[k] != id :: locks[k])
    }

    /** The end of a transaction that replies: its answer is logged and its token signed. */
    function Replied(id: nat, answer: Answer): Db
      requires id in txs
    {
      var tx := txs[id];
      To(id, Finished(|log|, answer)).Unlocked(id).(
        issued := if answer.Honoured? then issued + {tx.token.Reissued(answer.jti)} else issued,
        log := log + [Entry(tx.token, tx.start, tx.next, answer)])
    }
  }

  datatype Stmt =
    | SignIn(jti: string, exp: int)
    | Elapse(elapsed: real)
    | Begin(id: nat, token: Token, apiNow: real, next: string)
    | RefuseName(id: nat)
    | InsertRow(id: nat)
    | AwaitRow(id: nat)
    | PruneRow(id: nat, key: string)
    | LockRow(id: nat)
    | Commit(id: nat)
    | Abort(id: nat)

  const EMPTY := Db(map[], {}, 0.0, [], map[], map[])

  ghost predicate FreshJti(db: Db, jti: string) {
    && IsUuid(jti) && Unused(db.issued, jti)
    && forall id :: id in db.txs ==> db.txs[id].next != jti
  }

  /** The request is served within the skew allowance. */
  ghost predicate Serving(skew: real, db: Db, id: nat) {
    id in db.txs && db.clock - db.txs[id].apiNow <= skew
  }

  ghost predicate CanRun(skew: real, db: Db, s: Stmt) {
    match s
    case SignIn(jti, exp) => FreshJti(db, jti)
    case Elapse(elapsed) => elapsed >= 0.0
    case Begin(id, token, apiNow, next) =>
      id !in db.txs && token in db.issued && Verifies(token, apiNow) && FreshJti(db, next)
    case RefuseName(id) => Serving(skew, db, id) && db.txs[id].phase.Begun? && !db.txs[id].WellNamed()
    case InsertRow(id) =>
      && Serving(skew, db, id) && db.txs[id].phase.Begun? && db.txs[id].WellNamed()
      && Inserts(db.rows, db.txs[id].token) && db.txs[id].token.Family() !in db.locks
    case AwaitRow(id) =>
      && Serving(skew, db, id) && db.txs[id].phase.Begun? && db.txs[id].WellNamed()
      && !Inserts(db.rows, db.txs[id].token)
    case PruneRow(id, key) =>
      && Serving(skew, db, id) && db.txs[id].phase.Inserting?
      && key !in db.locks && key in Stale(db.rows, db.txs[id].start)
    case LockRow(id) =>
      Serving(skew, db, id) && db.txs[id].phase.Waiting? && db.txs[id].token.Family() !in db.locks
    case Commit(id) =>
      && Serving(skew, db, id)
      && (db.txs[id].phase.Judged? ||
          (db.txs[id].phase.Inserting? && Stale(db.rows, db.txs[id].start) <= db.txs[id].phase.doomed))
    case Abort(id) => id in db.txs && !db.txs[id].phase.Finished?
  }

  function Run(db: Db, s: Stmt): Db {
    match s
    case SignIn(jti, exp) => db.(issued := db.issued + {Token(jti, None, exp)})
    case Elapse(elapsed) => db.(clock := db.clock + elapsed)
    case Begin(id, token, apiNow, next) => db.(txs := db.txs[id := Tx(token, apiNow, db.clock, next, Begun)])
    case _ => if s.id in db.txs then RunTx(db, s, db.txs[s.id]) else db
  }

  function RunTx(db: Db, s: Stmt, tx: Tx): Db
    requires !s.SignIn? && !s.Elapse? && !s.Begin?
    requires s.id in db.txs
  {
    var f := tx.token.Family();
    match s
    case RefuseName(id) => db.Replied(id, Refused(RefreshUnknownChain))
    case InsertRow(id) => db.To(id, Inserting({})).(locks := db.locks[f := id])
    case AwaitRow(id) => db.To(id, Waiting)
    case PruneRow(id, key) =>
      if tx.phase.Inserting? then db.To(id, Inserting(tx.phase.doomed + {key})).(locks := db.locks[key := id]) else db
    case LockRow(id) =>
      // A row that is gone locks nothing, so the transaction has nothing left but its refusal.
      if f !in db.rows then db.Replied(id, Refused(RefreshUnknownChain))
      else
        var (row, answer) := JudgeAndUpdate(Some(db.rows[f]), tx.Try());
        if row.Some? then db.To(id, Judged(row.value, answer)).(locks := db.locks[f := id]) else db
    case Commit(id) =>
      if tx.phase.Inserting? then
        db.Replied(id, Honoured(tx.next, true)).(
          rows := db.rows[f := FirstRow(f, tx.token.exp, tx.Try())] - tx.phase.doomed)
      else if tx.phase.Judged? then
        db.Replied(id, tx.phase.answer).(rows := db.rows[f := tx.phase.row])
      else db
    case Abort(id) => db.To(id, Aborted).Unlocked(id)
  }

  function RunAll(stmts: seq<Stmt>): Db {
    if stmts == [] then EMPTY else Run(RunAll(Front(stmts)), Last(stmts))
  }

  ghost predicate ValidSchedule(skew: real, stmts: seq<Stmt>) {
    stmts != [] ==> ValidSchedule(skew, Front(stmts)) && CanRun(skew, RunAll(Front(stmts)), Last(stmts))
  }

  // ---------------------------------------------------------------- what the locks protect

  /** A transaction's buffer stays what the committed table justifies, as long as it holds its
      locks; its own jti stays unused until it commits; a finished one has its reply logged. */
  ghost predicate TxOk(db: Db, id: nat, tx: Tx) {
    var f := tx.token.Family();
    && tx.token in db.issued && Verifies(tx.token, tx.apiNow) && tx.start <= db.clock && IsUuid(tx.next)
    && (!tx.phase.Finished? ==> Unused(db.issued, tx.next))
    && match tx.phase
       case Begun => true
       case Waiting =>
         tx.WellNamed() && (tx.token.fid.None? ==> f in db.rows || tx.token.exp as real + DAY < db.clock)
       case Inserting(doomed) =>
         && tx.WellNamed() && Inserts(db.rows, tx.token) && Holds(db, id, f)
         && doomed <= Stale(db.rows, tx.start) && forall k :: k in doomed ==> Holds(db, id, k)
       case Judged(row, answer) =>
         && tx.WellNamed() && f in db.rows && Holds(db, id, f)
         && JudgeAndUpdate(Some(db.rows[f]), tx.Try()) == (Some(row), answer)
       case Finished(entry, answer) =>
         entry < |db.log| && db.log[entry] == Entry(tx.token, tx.start, tx.next, answer)
       case Aborted => true
  }

  ghost predicate Holds(db: Db, id: nat, key: string) {
    key in db.locks && db.locks[key] == id
  }

  ghost predicate DbInv(db: Db) {
    && (forall id {:trigger TxOk(db, id, db.txs[id])} :: id in db.txs ==> TxOk(db, id, db.txs[id]))
    && DistinctNexts(db.txs)
  }

  ghost predicate DistinctNexts(txs: map<nat, Tx>) {
    forall i, j :: i in txs && j in txs && i != j ==> txs[i].next != txs[j].next
  }

  /** The atomic event, if any, that a statement stands for. */
  function Meaning(db: Db, s: Stmt): seq<Event> {
    match s
    case SignIn(jti, exp) => [Login(jti, exp)]
    case Elapse(elapsed) => [Tick(elapsed)]
    case RefuseName(id) => PresentOf(db, id, {})
    case LockRow(id) =>
      if id in db.txs && db.txs[id].token.Family() !in db.rows then PresentOf(db, id, {}) else []
    case Commit(id) =>
      PresentOf(db, id, if id in db.txs && db.txs[id].phase.Inserting? then db.txs[id].phase.doomed else {})
    case _ => []
  }

  function PresentOf(db: Db, id: nat, pruned: set<string>): seq<Event> {
    if id in db.txs then
      var tx := db.txs[id];
      [Present(tx.token, tx.apiNow, tx.start, tx.next, pruned)]
    else []
  }

  // ---------------------------------------------------------------- one statement

  ghost predicate Simulates(skew: real, s: State, s': State, events: seq<Event>) {
    || (events == [] && s' == s)
    || (|events| == 1 && Enabled(skew, s, events[0]) && s' == StepOf(s, events[0]))
  }

  lemma CommitSimulates(skew: real, db: Db, id: nat)
    requires skew <= MAX_SKEW && DbInv(db) && CanRun(skew, db, Commit(id))
    ensures Simulates(skew, db.Committed(), Run(db, Commit(id)).Committed(), Meaning(db, Commit(id)))
  {
    var tx := db.txs[id];
    assert TxOk(db, id, tx);
    var pruned := if tx.phase.Inserting? then tx.phase.doomed else {};
    if tx.phase.Inserting? {
      var f, inserted := tx.token.Family(), Inserted(db.rows, tx.token, tx.start, tx.next);
      VerifyingChainIsNotStale(skew, db.Committed(), tx.token, tx.apiNow);
      assert forall k :: k != f ==> (k in inserted <==> k in db.rows) && (k in inserted ==> inserted[k] == db.rows[k]);
      assert pruned == Stale(inserted, tx.start);
    }
  }

  lemma LockSimulates(skew: real, db: Db, id: nat)
    requires skew <= MAX_SKEW && DbInv(db) && CanRun(skew, db, LockRow(id))
    ensures Simulates(skew, db.Committed(), Run(db, LockRow(id)).Committed(), Meaning(db, LockRow(id)))
  {
    var tx := db.txs[id];
    assert TxOk(db, id, tx);
    VerifyingChainIsNotStale(skew, db.Committed(), tx.token, tx.apiNow);
  }

  lemma StmtSimulates(skew: real, db: Db, s: Stmt)
    requires skew <= MAX_SKEW && DbInv(db) && CanRun(skew, db, s)
    ensures Simulates(skew, db.Committed(), Run(db, s).Committed(), Meaning(db, s))
  {
    if s.Commit? {
      CommitSimulates(skew, db, s.id);
    } else if s.LockRow? {
      LockSimulates(skew, db, s.id);
    } else if s.RefuseName? {
      assert TxOk(db, s.id, db.txs[s.id]);
    }
  }

  // ---------------------------------------------------------------- the locks do protect it

  /** What a statement of someone else leaves to a transaction: its locks, the rows under them,
      the replies already logged, and the row a first token was told to wait for. */
  ghost predicate Spares(db: Db, db': Db, id: nat, tx: Tx) {
    && db.issued <= db'.issued && db.clock <= db'.clock && db.log <= db'.log
    && (!tx.phase.Finished? && Unused(db.issued, tx.next) ==> Unused(db'.issued, tx.next))
    && (forall k :: Holds(db, id, k) ==> Holds(db', id, k) && Lookup(db'.rows, k) == Lookup(db.rows, k))
    && (tx.phase.Waiting? && tx.token.Family() in db.rows ==>
          tx.token.Family() in db'.rows || tx.token.exp as real + DAY < db'.clock)
  }

  lemma SparedTxOk(db: Db, db': Db, id: nat, tx: Tx)
    requires TxOk(db, id, tx) && Spares(db, db', id, tx)
    ensures TxOk(db', id, tx)
  {
    var f := tx.token.Family();
    match tx.phase
    case Inserting(doomed) =>
      assert Lookup(db'.rows, f) == Lookup(db.rows, f);
      forall k | k in doomed ensures k in Stale(db'.rows, tx.start) && Holds(db', id, k) {
        assert Holds(db, id, k);
        assert Lookup(db'.rows, k) == Lookup(db.rows, k);
      }
    case Judged(row, answer) =>
      assert Lookup(db'.rows, f) == Lookup(db.rows, f);
    case Finished(entry, answer) =>
      assert db'.log[entry] == db.log[entry];
    case _ =>
  }

  /** A reply signs the jti drawn for it or one that was already signed. */
  lemma RepliedJti(skew: real, s: State, e: Event, jti: string)
    requires skew <= MAX_SKEW && Inv(s) && e.Present? && Enabled(skew, s, e)
    requires Unused(s.issued, jti) && jti != e.next
    ensures Unused(StepOf(s, e).issued, jti)
  {
    hide Step;
    hide Refresh;
    hide RowAfter;
    hide IsUuid;
    var t, f := e.token, e.token.Family();
    var g, row := Generations(f, t.exp, AttemptsOf(s.log, f)), RowAfter(f, t.exp, AttemptsOf(s.log, f));
    assert ChainOk(s, t);
    RefreshIsChainStep(skew, s, e);
    RowHoldsYoungest(f, t.exp, AttemptsOf(s.log, f));
    AnsweredJti(f, t.exp, g, row, Attempt(t.jti, e.now, e.next));
    var answer := Refresh(s.rows, t, e.now, e.next, e.pruned).1;
    if answer.Honoured? && !answer.rotation {
      assert answer.jti in g;
      assert TokenFor(f, answer.jti, t.exp) in s.issued;
    }
  }

  lemma RowCarriesExpiry(s: State, t: Token)
    requires Inv(s) && t in s.issued && t.Family() in s.rows
    ensures s.rows[t.Family()].expiresAt == t.exp
  {
    assert ChainOk(s, t);
    RowHoldsYoungest(t.Family(), t.exp, AttemptsOf(s.log, t.Family()));
  }

  /** A commit changes only rows whose lock it holds, and deletes only stale ones. */
  lemma CommitRows(skew: real, db: Db, id: nat, k: string)
    requires DbInv(db) && CanRun(skew, db, Commit(id)) && !Holds(db, id, k)
    ensures Lookup(Run(db, Commit(id)).rows, k) == Lookup(db.rows, k)
  {
    assert TxOk(db, id, db.txs[id]);
  }

  lemma CommitDeletes(skew: real, db: Db, id: nat, k: string)
    requires DbInv(db) && CanRun(skew, db, Commit(id)) && k in db.rows
    ensures k in Run(db, Commit(id)).rows || db.rows[k].expiresAt as real + DAY < db.clock
  {
    assert TxOk(db, id, db.txs[id]);
  }

  lemma CommitIssues(skew: real, db: Db, id: nat, jti: string)
    requires skew <= MAX_SKEW && DbInv(db) && Inv(db.Committed()) && CanRun(skew, db, Commit(id))
    requires Unused(db.issued, jti) && jti != db.txs[id].next
    ensures Unused(Run(db, Commit(id)).issued, jti)
  {
    CommitSimulates(skew, db, id);
    RepliedJti(skew, db.Committed(), Meaning(db, Commit(id))[0], jti);
  }

  lemma CommitSparesOthers(skew: real, db: Db, id: nat, other: nat)
    requires skew <= MAX_SKEW && DbInv(db) && Inv(db.Committed()) && CanRun(skew, db, Commit(id))
    requires other in db.txs && other != id
    ensures Spares(db, Run(db, Commit(id)), other, db.txs[other])
  {
    var db', o := Run(db, Commit(id)), db.txs[other];
    assert TxOk(db, other, o);
    if Unused(db.issued, o.next) {
      CommitIssues(skew, db, id, o.next);
    }
    forall k | Holds(db, other, k) ensures Holds(db', other, k) && Lookup(db'.rows, k) == Lookup(db.rows, k) {
      CommitRows(skew, db, id, k);
    }
    if o.token.Family() in db.rows {
      RowCarriesExpiry(db.Committed(), o.token);
      CommitDeletes(skew, db, id, o.token.Family());
    }
  }

  lemma OtherStmtsSpare(skew: real, db: Db, s: Stmt, other: nat)
    requires skew <= MAX_SKEW && DbInv(db) && CanRun(skew, db, s) && !s.Commit?
    requires other in db.txs && (s.SignIn? || s.Elapse? || s.id != other)
    ensures Spares(db, Run(db, s), other, db.txs[other])
  {
    if s.LockRow? {
      LockSimulates(skew, db, s.id);
      var tx := db.txs[s.id];
      assert TxOk(db, s.id, tx);
    }
  }

  lemma OwnTxOk(skew: real, db: Db, s: Stmt)
    requires skew <= MAX_SKEW && DbInv(db) && CanRun(skew, db, s) && !s.SignIn? && !s.Elapse?
    ensures TxOk(Run(db, s), s.id, Run(db, s).txs[s.id])
  {
    var db' := Run(db, s);
    if !s.Begin? {
      assert TxOk(db, s.id, db.txs[s.id]);
    }
    if s.LockRow? {
      LockSimulates(skew, db, s.id);
    }
  }

  lemma StmtKeepsTxOk(skew: real, db: Db, s: Stmt, id: nat)
    requires skew <= MAX_SKEW && DbInv(db) && Inv(db.Committed()) && CanRun(skew, db, s) && id in Run(db, s).txs
    ensures TxOk(Run(db, s), id, Run(db, s).txs[id])
  {
    if !s.SignIn? && !s.Elapse? && s.id == id {
      OwnTxOk(skew, db, s);
    } else {
      assert TxOk(db, id, db.txs[id]);
      if s.Commit? { CommitSparesOthers(skew, db, s.id, id); } else { OtherStmtsSpare(skew, db, s, id); }
      SparedTxOk(db, Run(db, s), id, db.txs[id]);
    }
  }

  lemma StmtKeepsNexts(skew: real, db: Db, s: Stmt)
    requires DbInv(db) && CanRun(skew, db, s)
    ensures DistinctNexts(Run(db, s).txs)
  {
  }

  lemma StmtKeepsDbInv(skew: real, db: Db, s: Stmt)
    requires skew <= MAX_SKEW && DbInv(db) && Inv(db.Committed()) && CanRun(skew, db, s)
    ensures DbInv(Run(db, s))
  {
    var db' := Run(db, s);
    forall id | id in db'.txs ensures TxOk(db', id, db'.txs[id]) {
      StmtKeepsTxOk(skew, db, s, id);
    }
    StmtKeepsNexts(skew, db, s);
  }

  // ---------------------------------------------------------------- whole schedules

  /** The serial run that a schedule amounts to: its replies in the order of the commits. */
  function Serial(stmts: seq<Stmt>): seq<Event> {
    if stmts == [] then [] else Serial(Front(stmts)) + Meaning(RunAll(Front(stmts)), Last(stmts))
  }

  /** Every interleaving of refresh transactions, with waits, aborts and prunes, has the log, the
      signed tokens and the table of a serial run of atomic judge-and-update steps. */
  lemma {:induction false} ScheduleIsSerial(skew: real, stmts: seq<Stmt>)
    requires skew <= MAX_SKEW && ValidSchedule(skew, stmts)
    ensures ValidRun(skew, Serial(stmts)) && Exec(Serial(stmts)) == RunAll(stmts).Committed()
    ensures DbInv(RunAll(stmts))
  {
    if stmts != [] {
      var db, s := RunAll(Front(stmts)), Last(stmts);
      var events := Serial(Front(stmts));
      ScheduleIsSerial(skew, Front(stmts));
      RunKeepsInv(skew, events);
      StmtSimulates(skew, db, s);
      StmtKeepsDbInv(skew, db, s);
      if Meaning(db, s) == [] {
        assert Serial(stmts) == events;
      } else {
        assert Serial(stmts) == events + [Meaning(db, s)[0]];
        assert Front(Serial(stmts)) == events;
      }
    }
  }

  /** The reply of a finished transaction is the one the serial run gives its token. */
  lemma FinishedReplyIsLogged(skew: real, stmts: seq<Stmt>, id: nat)
    requires skew <= MAX_SKEW && ValidSchedule(skew, stmts)
    requires id in RunAll(stmts).txs && RunAll(stmts).txs[id].phase.Finished?
    ensures var tx, log := RunAll(stmts).txs[id], Exec(Serial(stmts)).log;
            && tx.phase.entry < |log|
            && log[tx.phase.entry] == Entry(tx.token, tx.start, tx.next, tx.phase.answer)
  {
    ScheduleIsSerial(skew, stmts);
    assert TxOk(RunAll(stmts), id, RunAll(stmts).txs[id]);
  }

  // ---------------------------------------------------------------- nobody is stuck

  /** The locks a transaction can have: its own chain's row once it has written it, and the rows
      it is about to delete. */
  predicate MayLock(tx: Tx, k: string) {
    || (tx.phase.Inserting? && (k == tx.token.Family() || k in tx.phase.doomed))
    || (tx.phase.Judged? && k == tx.token.Family())
  }

  /** A transaction that has written its chain's row has it locked, and a row that it inserts is
      not in the table yet. */
  ghost predicate OwnLock(db: Db, id: nat, tx: Tx) {
    && (tx.phase.Inserting? || tx.phase.Judged? ==> Holds(db, id, tx.token.Family()))
    && (tx.phase.Inserting? ==> tx.token.Family() !in db.rows)
  }

  /** A key is locked only by a transaction that has written it and can still end. */
  ghost predicate LocksHeld(db: Db) {
    && (forall k :: k in db.locks ==> db.locks[k] in db.txs && MayLock(db.txs[db.locks[k]], k))
    && (forall id {:trigger OwnLock(db, id, db.txs[id])} :: id in db.txs ==> OwnLock(db, id, db.txs[id]))
  }

  lemma StmtKeepsMayLock(skew: real, db: Db, s: Stmt, k: string)
    requires LocksHeld(db) && CanRun(skew, db, s) && k in Run(db, s).locks
    ensures var db' := Run(db, s); db'.locks[k] in db'.txs && MayLock(db'.txs[db'.locks[k]], k)
  {
    hide IsUuid;
    hide JudgeAndUpdate;
    hide Stale;
    hide Verifies;
    hide OwnLock;
  }

  lemma CommitKeepsOwnLock(skew: real, db: Db, h: nat, id: nat)
    requires LocksHeld(db) && CanRun(skew, db, Commit(h)) && id in db.txs
    ensures OwnLock(Run(db, Commit(h)), id, Run(db, Commit(h)).txs[id])
  {
    hide IsUuid;
    hide Stale;
    hide MayLock;
    assert OwnLock(db, id, db.txs[id]) && OwnLock(db, h, db.txs[h]);
  }

  lemma StmtKeepsOwnLock(skew: real, db: Db, s: Stmt, id: nat)
    requires LocksHeld(db) && CanRun(skew, db, s) && id in Run(db, s).txs && !s.Commit?
    ensures OwnLock(Run(db, s), id, Run(db, s).txs[id])
  {
    hide IsUuid;
    hide JudgeAndUpdate;
    hide Stale;
    hide Verifies;
    hide MayLock;
    if id in db.txs {
      assert OwnLock(db, id, db.txs[id]);
    }
  }

  lemma StmtKeepsLocksHeld(skew: real, db: Db, s: Stmt)
    requires LocksHeld(db) && CanRun(skew, db, s)
    ensures LocksHeld(Run(db, s))
  {
    hide CanRun;
    hide MayLock;
    hide OwnLock;
    var db' := Run(db, s);
    forall k | k in db'.locks ensures db'.locks[k] in db'.txs && MayLock(db'.txs[db'.locks[k]], k) {
      StmtKeepsMayLock(skew, db, s, k);
    }
    forall id | id in db'.txs ensures OwnLock(db', id, db'.txs[id]) {
      if s.Commit? { CommitKeepsOwnLock(skew, db, s.id, id); } else { StmtKeepsOwnLock(skew, db, s, id); }
    }
  }

  lemma {:induction false} LocksAlwaysHeld(skew: real, stmts: seq<Stmt>)
    requires ValidSchedule(skew, stmts)
    ensures LocksHeld(RunAll(stmts))
  {
    if stmts != [] {
      hide LocksHeld;
      hide Run;
      hide CanRun;
      LocksAlwaysHeld(skew, Front(stmts));
      StmtKeepsLocksHeld(skew, RunAll(Front(stmts)), Last(stmts));
    } else {
      assert LocksHeld(EMPTY);
    }
  }

  /** The transaction itself has a step that is no rollback. */
  ghost predicate CanStep(skew: real, db: Db, id: nat) {
    || CanRun(skew, db, RefuseName(id)) || CanRun(skew, db, InsertRow(id)) || CanRun(skew, db, AwaitRow(id))
    || CanRun(skew, db, LockRow(id)) || CanRun(skew, db, Commit(id))
    || exists k :: CanRun(skew, db, PruneRow(id, k))
  }

  /** The transaction waits for a row that another one has locked: its own chain's row, or one that
      its DELETE is to take. */
  ghost predicate WaitsFor(db: Db, id: nat, k: string)
    requires id in db.txs
  {
    && k in db.locks && db.locks[k] != id
    && (k == db.txs[id].token.Family() || (db.txs[id].phase.Inserting? && k in Stale(db.rows, db.txs[id].start)))
  }

  /** Whoever holds the key has not ended; when it ends, by commit or rollback, the key is free. */
  ghost predicate CanFree(skew: real, db: Db, k: string)
    requires k in db.locks
  {
    var h := db.locks[k];
    && h in db.txs && CanRun(skew, db, Abort(h)) && k !in Run(db, Abort(h)).locks
    && (CanRun(skew, db, Commit(h)) ==> k !in Run(db, Commit(h)).locks)
    && (db.txs[h].phase.Judged? && Serving(skew, db, h) ==> CanRun(skew, db, Commit(h)))
  }

  lemma HolderCanFree(skew: real, db: Db, k: string)
    requires LocksHeld(db) && k in db.locks
    ensures CanFree(skew, db, k)
  {
  }

  /** What a transaction has locked besides its own key it is about to delete. */
  lemma OwnLockIsDoomed(db: Db, id: nat, k: string)
    requires LocksHeld(db) && id in db.txs && db.txs[id].phase.Inserting?
    ensures k in db.locks && db.locks[k] == id && k in db.rows ==> k in db.txs[id].phase.doomed
  {
    assert OwnLock(db, id, db.txs[id]);
  }

  lemma StuckOnlyByLock(skew: real, db: Db, id: nat)
    requires LocksHeld(db) && Serving(skew, db, id)
    requires !db.txs[id].phase.Finished? && !db.txs[id].phase.Aborted?
    ensures CanStep(skew, db, id) || exists k :: WaitsFor(db, id, k)
  {
    hide IsUuid;
    var tx := db.txs[id];
    var f := tx.token.Family();
    match tx.phase
    case Begun =>
      assert CanStep(skew, db, id) || WaitsFor(db, id, f);
    case Waiting =>
      assert CanStep(skew, db, id) || WaitsFor(db, id, f);
    case Inserting(doomed) =>
      if !(Stale(db.rows, tx.start) <= doomed) {
        var k :| k in Stale(db.rows, tx.start) && k !in doomed;
        OwnLockIsDoomed(db, id, k);
        assert CanRun(skew, db, PruneRow(id, k)) || WaitsFor(db, id, k);
      }
    case Judged(_, _) =>
      assert CanRun(skew, db, Commit(id));
  }

  /** Nobody is stuck: in every schedule, a transaction that is served and has not ended can take
      a step, or it waits for a key whose holder has not ended and frees it when it ends. */
  lemma NobodyIsStuck(skew: real, stmts: seq<Stmt>, id: nat)
    requires ValidSchedule(skew, stmts) && Serving(skew, RunAll(stmts), id)
    requires var phase := RunAll(stmts).txs[id].phase; !phase.Finished? && !phase.Aborted?
    ensures || CanStep(skew, RunAll(stmts), id)
            || exists k :: WaitsFor(RunAll(stmts), id, k) && CanFree(skew, RunAll(stmts), k)
  {
    hide CanStep;
    hide CanFree;
    hide LocksHeld;
    var db := RunAll(stmts);
    LocksAlwaysHeld(skew, stmts);
    StuckOnlyByLock(skew, db, id);
    if !CanStep(skew, db, id) {
      var k :| WaitsFor(db, id, k);
      HolderCanFree(skew, db, k);
    }
  }

  /** A first refresh that is rolled back leaves the chain free for the client's retry. */
  lemma RetryAfterRollback(skew: real, db: Db, id: nat, retry: nat)
    requires LocksHeld(db) && CanRun(skew, db, Abort(id)) && Serving(skew, db, retry) && retry != id
    requires db.txs[retry].phase.Begun? && db.txs[retry].WellNamed() && Inserts(db.rows, db.txs[retry].token)
    requires db.txs[retry].token.Family() in db.locks ==> db.locks[db.txs[retry].token.Family()] == id
    ensures CanRun(skew, Run(db, Abort(id)), InsertRow(retry))
  {
    hide IsUuid;
  }

  /** The prune, on the table: what a commit that inserts its chain's row leaves of the others. */
  lemma CommitPrunes(skew: real, db: Db, id: nat, k: string)
    requires skew <= MAX_SKEW && DbInv(db) && CanRun(skew, db, Commit(id)) && db.txs[id].phase.Inserting?
    requires k != db.txs[id].token.Family()
    ensures var rows := Run(db, Commit(id)).rows;
            && (k in rows <==> k in db.rows && db.rows[k].expiresAt as real >= db.txs[id].start - 86400.0)
            && (k in rows ==> rows[k] == db.rows[k])
  {
    assert TxOk(db, id, db.txs[id]);
  }

  // ---------------------------------------------------------------- real time

  /** What a statement does to a transaction that has replied, and to one that has not begun when
      the log is `early` entries long. */
  lemma StmtKeepsReply(skew: real, db: Db, s: Stmt, id: nat)
    requires CanRun(skew, db, s) && id in db.txs && db.txs[id].phase.Finished?
    ensures id in Run(db, s).txs && Run(db, s).txs[id] == db.txs[id]
    ensures |db.log| <= |Run(db, s).log|
  {
  }

  ghost predicate RepliesAfter(db: Db, id: nat, early: nat) {
    early <= |db.log| && (id in db.txs && db.txs[id].phase.Finished? ==> early <= db.txs[id].phase.entry < |db.log|)
  }

  lemma StmtRepliesAfter(skew: real, db: Db, s: Stmt, id: nat, early: nat)
    requires CanRun(skew, db, s) && RepliesAfter(db, id, early)
    ensures RepliesAfter(Run(db, s), id, early)
  {
  }

  lemma {:induction false} ReplyStays(skew: real, stmts: seq<Stmt>, n: nat, id: nat)
    requires ValidSchedule(skew, stmts) && n <= |stmts|
    requires id in RunAll(stmts[..n]).txs && RunAll(stmts[..n]).txs[id].phase.Finished?
    ensures id in RunAll(stmts).txs && RunAll(stmts).txs[id] == RunAll(stmts[..n]).txs[id]
    ensures |RunAll(stmts[..n]).log| <= |RunAll(stmts).log|
  {
    hide Run;
    hide CanRun;
    if n == |stmts| {
      assert stmts[..n] == stmts;
    } else {
      assert Front(stmts)[..n] == stmts[..n];
      ReplyStays(skew, Front(stmts), n, id);
      StmtKeepsReply(skew, RunAll(Front(stmts)), Last(stmts), id);
    }
  }

  lemma {:induction false} LaterReply(skew: real, stmts: seq<Stmt>, n: nat, id: nat)
    requires ValidSchedule(skew, stmts) && n <= |stmts|
    requires RepliesAfter(RunAll(stmts[..n]), id, |RunAll(stmts[..n]).log|)
    ensures RepliesAfter(RunAll(stmts), id, |RunAll(stmts[..n]).log|)
  {
    hide Run;
    hide CanRun;
    hide RepliesAfter;
    if n == |stmts| {
      assert stmts[..n] == stmts;
    } else {
      assert Front(stmts)[..n] == stmts[..n];
      LaterReply(skew, Front(stmts), n, id);
      StmtRepliesAfter(skew, RunAll(Front(stmts)), Last(stmts), id, |RunAll(stmts[..n]).log|);
    }
  }

  lemma {:induction false} ReplyIsInLog(skew: real, stmts: seq<Stmt>, id: nat)
    requires ValidSchedule(skew, stmts)
    ensures RepliesAfter(RunAll(stmts), id, 0)
  {
    assert stmts[..0] == [];
    LaterReply(skew, stmts, 0, id);
  }

  /** The serial order respects real time: a transaction that had replied when another one began
      stands before it in the log, whatever the skew. */
  lemma RealTimeOrder(skew: real, stmts: seq<Stmt>, n: nat, i: nat, j: nat)
    requires ValidSchedule(skew, stmts) && n <= |stmts|
    requires var mid := RunAll(stmts[..n]); i in mid.txs && mid.txs[i].phase.Finished? && j !in mid.txs
    requires j in RunAll(stmts).txs && RunAll(stmts).txs[j].phase.Finished?
    ensures i in RunAll(stmts).txs && RunAll(stmts).txs[i].phase.Finished?
    ensures RunAll(stmts).txs[i].phase.entry < RunAll(stmts).txs[j].phase.entry < |RunAll(stmts).log|
  {
    hide Run;
    hide CanRun;
    PrefixIsValid(skew, stmts, n);
    ReplyIsInLog(skew, stmts[..n], i);
    ReplyStays(skew, stmts, n, i);
    LaterReply(skew, stmts, n, j);
  }

  lemma StmtKeepsRequest(skew: real, db: Db, s: Stmt, id: nat)
    requires CanRun(skew, db, s) && id in db.txs
    ensures id in Run(db, s).txs && Run(db, s).txs[id] == db.txs[id].(phase := Run(db, s).txs[id].phase)
  {
    hide IsUuid;
    hide JudgeAndUpdate;
  }

  /** A transaction works for the token it began with, by the clock of its beginning. */
  lemma {:induction false} TxAsBegun(skew: real, stmts: seq<Stmt>, n: nat)
    requires ValidSchedule(skew, stmts) && n < |stmts| && stmts[n].Begin?
    ensures var b := stmts[n];
            && b.id in RunAll(stmts).txs
            && var tx := RunAll(stmts).txs[b.id];
               tx.token == b.token && tx.apiNow == b.apiNow && tx.next == b.next && tx.start == RunAll(stmts[..n]).clock
  {
    hide CanRun;
    if n == |stmts| - 1 {
      assert stmts[..n] == Front(stmts);
    } else {
      hide Run;
      assert Front(stmts)[..n] == stmts[..n] && Front(stmts)[n] == stmts[n];
      TxAsBegun(skew, Front(stmts), n);
      StmtKeepsRequest(skew, RunAll(Front(stmts)), Last(stmts), stmts[n].id);
    }
  }

  lemma {:induction false} PrefixIsValid(skew: real, stmts: seq<Stmt>, n: nat)
    requires ValidSchedule(skew, stmts) && n <= |stmts|
    ensures ValidSchedule(skew, stmts[..n])
  {
    if n == |stmts| {
      assert stmts[..n] == stmts;
    } else {
      assert Front(stmts)[..n] == stmts[..n];
      PrefixIsValid(skew, Front(stmts), n);
    }
  }

  /** Of two transactions that present one token at once, first refreshes racing on the INSERT
      included, both honoured means one rotated, the later one got the grace answer, and both got
      the same successor. */
  lemma RacingRefreshesConverge(skew: real, stmts: seq<Stmt>, i: nat, j: nat)
    requires skew <= MAX_SKEW && ValidSchedule(skew, stmts)
    requires var db := RunAll(stmts);
             && i in db.txs && j in db.txs && i != j
             && db.txs[i].phase.Finished? && db.txs[j].phase.Finished?
             && db.txs[i].token.jti == db.txs[j].token.jti
    ensures var a, b := RunAll(stmts).txs[i].phase, RunAll(stmts).txs[j].phase;
            && a.entry != b.entry
            && (a.answer.Honoured? && b.answer.Honoured? ==>
                  && a.answer.jti == b.answer.jti
                  && (if a.entry < b.entry then a.answer.rotation && !b.answer.rotation
                      else b.answer.rotation && !a.answer.rotation))
  {
    ScheduleIsSerial(skew, stmts);
    FinishedReplyIsLogged(skew, stmts, i);
    FinishedReplyIsLogged(skew, stmts, j);
    var log, p, q := Exec(Serial(stmts)).log, RunAll(stmts).txs[i].phase.entry, RunAll(stmts).txs[j].phase.entry;
    if log[p].answer.Honoured? && log[q].answer.Honoured? {
      HonouredAlike(skew, Serial(stmts), if p < q then p else q, if p < q then q else p);
    }
  }

  /** End to end: under every interleaving, a client that is alone on its chain is never refused
      if and only if its losses were forgivable. */
  lemma LoneClientUnderConcurrency(skew: real, stmts: seq<Stmt>, t: Token, delivered: seq<bool>)
    requires skew <= MAX_SKEW && ValidSchedule(skew, stmts) && t in RunAll(stmts).issued
    requires OneClient(t.Family(), t.exp, AttemptsOf(RunAll(stmts).log, t.Family()), delivered)
    ensures (forall k :: 0 <= k < |AnswersOf(RunAll(stmts).log, t.Family())| ==>
               AnswersOf(RunAll(stmts).log, t.Family())[k].Honoured?) <==>
            AllForgivable(AttemptsOf(RunAll(stmts).log, t.Family()), delivered)
  {
    ScheduleIsSerial(skew, stmts);
    ChainHistory(skew, Serial(stmts), t);
    LoneClientNeverRefused(t.Family(), t.exp, AttemptsOf(RunAll(stmts).log, t.Family()), delivered);
  }

  /** So is the condition for two holders of one chain. */
  lemma TwoHoldersUnderConcurrency(skew: real, stmts: seq<Stmt>, t: Token, who: seq<bool>, delivered: seq<bool>)
    requires skew <= MAX_SKEW && ValidSchedule(skew, stmts) && t in RunAll(stmts).issued
    requires TwoHolders(t.Family(), t.exp, AttemptsOf(RunAll(stmts).log, t.Family()), who, delivered)
    ensures var attempts := AttemptsOf(RunAll(stmts).log, t.Family());
            var s := RefreshHolders.Sharing(t.Family(), t.exp, attempts, who, delivered);
            (forall k :: 0 <= k < |s.attempts| ==> AnswersOf(RunAll(stmts).log, s.family)[k].Honoured?) <==>
            RefreshHolders.InStep(s, RefreshHolders.Until(who) + 1) && RefreshHolders.LoneAfter(s, |s.attempts|)
  {
    ScheduleIsSerial(skew, stmts);
    ChainHistory(skew, Serial(stmts), t);
    RefreshHolders.TwoHoldersNeverRefused(
      RefreshHolders.Sharing(t.Family(), t.exp, AttemptsOf(RunAll(stmts).log, t.Family()), who, delivered));
  }
}
