/**
 The refresh-token rule of server/src/auth/refresh-rotation.ts and the life of one login's
 chain of refresh tokens under that rule.

 A chain is named by the jti of its first token. Its row is created by that token's first
 refresh; from then on every presented token is judged against the row alone. The chain's
 history is a sequence of attempts, in the order in which they are judged; rotation times need
 not be monotone along it, because `now()` is the start of the transaction that is judged.
 */
module RefreshRotation {
  import opened Options
  import opened Sequences

  const REFRESH_GRACE_MAX_SEC: real := 24.0 * 3600.0

  /** The columns that judgeRefresh reads. */
  datatype FamilyState = FamilyState(
    currentJti: string,
    previousJti: Option<string>,
    revoked: bool,
    graceUsed: bool,
    secondsSinceRotation: real)

  datatype Verdict = Rotate | Grace(jti: string) | Reused | Revoked | Unknown

  function JudgeRefresh(family: Option<FamilyState>, jti: string): Verdict {
    if family.None? then Unknown
    else if family.value.revoked then Revoked
    else if jti == family.value.currentJti then Rotate
    else if
      && family.value.previousJti.Some?
      && jti == family.value.previousJti.value
      && !family.value.graceUsed
      && family.value.secondsSinceRotation < REFRESH_GRACE_MAX_SEC
    then Grace(family.value.currentJti)
    else Reused
  }

  /** One row of refresh_families, without the user and device columns that no decision reads. */
  datatype Row = Row(
    currentJti: string,
    previousJti: Option<string>,
    rotatedAt: real,
    graceUsed: bool,
    revokedAt: Option<real>,
    expiresAt: int)
  {
    /** The SELECT ... FOR UPDATE of rotateRefreshChain, run in a transaction begun at `now`. */
    function StateAt(now: real): FamilyState {
      FamilyState(currentJti, previousJti, revokedAt.Some?, graceUsed, now - rotatedAt)
    }
  }

  datatype Reason = RefreshReused | RefreshRevoked | RefreshUnknownChain

  /** What the caller gets: the jti of the reissued token, or a refusal. */
  datatype Answer = Honoured(jti: string, rotation: bool) | Refused(reason: Reason)

  /** One presented token: its jti, the start of the transaction and the jti drawn for it. */
  datatype Attempt = Attempt(jti: string, now: real, next: string)

  /** The row that the first refresh of a chain inserts. */
  function FirstRow(family: string, exp: int, a: Attempt): Row {
    Row(a.next, Some(family), a.now, false, None, exp)
  }

  /** The judged half of rotateRefreshChain: the row after the UPDATE, and the answer. */
  function JudgeAndUpdate(row: Option<Row>, a: Attempt): (Option<Row>, Answer) {
    match JudgeRefresh(if row.Some? then Some(row.value.StateAt(a.now)) else None, a.jti)
    case Rotate =>
      (Some(row.value.(previousJti := Some(row.value.currentJti), currentJti := a.next,
                       rotatedAt := a.now, graceUsed := false)),
       Honoured(a.next, true))
    case Grace(jti) => (Some(row.value.(graceUsed := true)), Honoured(jti, false))
    case Reused => (Some(row.value.(revokedAt := Some(a.now))), Refused(RefreshReused))
    case Revoked => (row, Refused(RefreshRevoked))
    case Unknown => (row, Refused(RefreshUnknownChain))
  }

  /** One attempt on a chain: the first token creates a missing row, everything else is judged. */
  function Step(family: string, exp: int, row: Option<Row>, a: Attempt): (Option<Row>, Answer) {
    if row.None? && a.jti == family then (Some(FirstRow(family, exp, a)), Honoured(a.next, true))
    else JudgeAndUpdate(row, a)
  }

  // ---------------------------------------------------------------- one chain's history

  function RowAfter(family: string, exp: int, attempts: seq<Attempt>): Option<Row> {
    if attempts == [] then None
    else Step(family, exp, RowAfter(family, exp, Front(attempts)), Last(attempts)).0
  }

  function Answers(family: string, exp: int, attempts: seq<Attempt>): (r: seq<Answer>)
    ensures |r| == |attempts|
  {
    if attempts == [] then []
    else Answers(family, exp, Front(attempts)) +
         [Step(family, exp, RowAfter(family, exp, Front(attempts)), Last(attempts)).1]
  }

  /** g0, g1, ...: the first token's jti and then the jti of every rotation. */
  function Generations(family: string, exp: int, attempts: seq<Attempt>): (g: seq<string>)
    ensures |g| > 0 && g[0] == family
  {
    if attempts == [] then [family]
    else
      var g := Generations(family, exp, Front(attempts));
      var answer := Last(Answers(family, exp, attempts));
      if answer.Honoured? && answer.rotation then g + [answer.jti] else g
  }

  /** Every jti the server drew was new to the chain. */
  ghost predicate Fresh(family: string, exp: int, attempts: seq<Attempt>) {
    attempts != [] ==>
      && Fresh(family, exp, Front(attempts))
      && Last(attempts).next !in Generations(family, exp, Front(attempts))
  }

  lemma {:induction false} AnswersPrefix(family: string, exp: int, attempts: seq<Attempt>, i: nat)
    requires i <= |attempts|
    ensures Answers(family, exp, attempts)[..i] == Answers(family, exp, attempts[..i])
  {
    if i == |attempts| {
      assert attempts[..i] == attempts;
    } else {
      AnswersPrefix(family, exp, Front(attempts), i);
      assert Front(attempts)[..i] == attempts[..i];
    }
  }

  lemma AnswerAt(family: string, exp: int, attempts: seq<Attempt>, i: nat)
    requires i < |attempts|
    ensures Answers(family, exp, attempts)[i] ==
            Step(family, exp, RowAfter(family, exp, attempts[..i]), attempts[i]).1
    ensures RowAfter(family, exp, attempts[..i + 1]) ==
            Step(family, exp, RowAfter(family, exp, attempts[..i]), attempts[i]).0
  {
    var upTo := attempts[..i + 1];
    AnswersPrefix(family, exp, attempts, i + 1);
    assert Front(upTo) == attempts[..i];
    assert Answers(family, exp, attempts)[i] == Answers(family, exp, attempts)[..i + 1][i];
  }

  lemma {:induction false} FreshPrefix(family: string, exp: int, attempts: seq<Attempt>, i: nat)
    requires Fresh(family, exp, attempts) && i <= |attempts|
    ensures Fresh(family, exp, attempts[..i])
    ensures Generations(family, exp, attempts[..i]) <= Generations(family, exp, attempts)
  {
    if i == |attempts| {
      assert attempts[..i] == attempts;
    } else {
      FreshPrefix(family, exp, Front(attempts), i);
      assert Front(attempts)[..i] == attempts[..i];
    }
  }

  // ---------------------------------------------------------------- the chain never forks

  /** The row is missing as long as there is one generation, and then names the last two. */
  ghost predicate NamesLastTwo(g: seq<string>, exp: int, row: Option<Row>) {
    && Distinct(g) && g != []
    && (row.None? <==> |g| == 1)
    && (row.Some? ==>
          && row.value.currentJti == Last(g)
          && row.value.previousJti == Some(g[|g| - 2])
          && row.value.expiresAt == exp)
  }

  lemma StepKeepsLastTwo(family: string, exp: int, g: seq<string>, row: Option<Row>, a: Attempt)
    requires NamesLastTwo(g, exp, row) && a.next !in g
    ensures var (row', answer) := Step(family, exp, row, a);
            && (answer.Honoured? && answer.rotation ==> answer.jti == a.next)
            && (row.None? && g[0] == family ==>
                  NamesLastTwo(if answer.Honoured? && answer.rotation then g + [a.next] else g, exp, row'))
            && (row.Some? ==>
                  NamesLastTwo(if answer.Honoured? && answer.rotation then g + [a.next] else g, exp, row'))
  {
  }

  /** An honoured token is answered by the drawn jti or by the youngest generation. */
  lemma AnsweredJti(family: string, exp: int, g: seq<string>, row: Option<Row>, a: Attempt)
    requires NamesLastTwo(g, exp, row)
    ensures var answer := Step(family, exp, row, a).1;
            && (answer.Honoured? && answer.rotation ==> answer.jti == a.next)
            && (answer.Honoured? && !answer.rotation ==> answer.jti == Last(g) && Last(g) != g[0])
  {
  }

  /** The row always holds the two youngest generations, and no jti occurs twice. */
  lemma {:induction false} RowHoldsYoungest(family: string, exp: int, attempts: seq<Attempt>)
    requires Fresh(family, exp, attempts)
    ensures NamesLastTwo(Generations(family, exp, attempts), exp, RowAfter(family, exp, attempts))
  {
    hide Step;
    if attempts != [] {
      var before := Front(attempts);
      RowHoldsYoungest(family, exp, before);
      StepKeepsLastTwo(family, exp, Generations(family, exp, before), RowAfter(family, exp, before), Last(attempts));
    }
  }

  lemma LastAnswerFollows(family: string, exp: int, attempts: seq<Attempt>) returns (p: nat)
    requires attempts != [] && Fresh(family, exp, attempts)
    requires Last(Answers(family, exp, attempts)).Honoured?
    ensures var g := Generations(family, exp, attempts);
            p + 1 < |g| && Last(attempts).jti == g[p] && Last(Answers(family, exp, attempts)).jti == g[p + 1]
  {
    RowHoldsYoungest(family, exp, Front(attempts));
    var g := Generations(family, exp, Front(attempts));
    p := if Last(Answers(family, exp, attempts)).rotation then |g| - 1 else |g| - 2;
  }

  /** Every answer given to generation p carries generation p + 1. */
  lemma AnswersFollowGenerations(family: string, exp: int, attempts: seq<Attempt>, i: nat)
    returns (p: nat)
    requires Fresh(family, exp, attempts)
    requires i < |attempts| && Answers(family, exp, attempts)[i].Honoured?
    ensures var g := Generations(family, exp, attempts);
            p + 1 < |g| && attempts[i].jti == g[p] && Answers(family, exp, attempts)[i].jti == g[p + 1]
  {
    hide Answers;
    hide Generations;
    hide Fresh;
    var upTo := attempts[..i + 1];
    FreshPrefix(family, exp, attempts, i + 1);
    AnswersPrefix(family, exp, attempts, i + 1);
    assert Answers(family, exp, upTo)[i] == Answers(family, exp, attempts)[i];
    p := LastAnswerFollows(family, exp, upTo);
  }

  lemma NeverForks(family: string, exp: int, attempts: seq<Attempt>, i: nat, k: nat)
    requires Fresh(family, exp, attempts)
    requires i < |attempts| && k < |attempts| && attempts[i].jti == attempts[k].jti
    requires Answers(family, exp, attempts)[i].Honoured? && Answers(family, exp, attempts)[k].Honoured?
    ensures Answers(family, exp, attempts)[i].jti == Answers(family, exp, attempts)[k].jti
  {
    RowHoldsYoungest(family, exp, attempts);
    var p := AnswersFollowGenerations(family, exp, attempts, i);
    var q := AnswersFollowGenerations(family, exp, attempts, k);
  }

  /** A grace answer names the previous generation and leaves graceUsed set until a rotation. */
  lemma {:induction false} GraceIsRecorded(family: string, exp: int, attempts: seq<Attempt>, i: nat)
    requires Fresh(family, exp, attempts)
    requires i < |attempts|
    requires Answers(family, exp, attempts)[i].Honoured? && !Answers(family, exp, attempts)[i].rotation
    ensures var row := RowAfter(family, exp, attempts);
            row.Some? && (row.value.previousJti == Some(attempts[i].jti) ==> row.value.graceUsed)
  {
    var row := RowAfter(family, exp, Front(attempts));
    if i < |attempts| - 1 {
      GraceIsRecorded(family, exp, Front(attempts), i);
      var p := AnswersFollowGenerations(family, exp, Front(attempts), i);
      RowHoldsYoungest(family, exp, Front(attempts));
    }
  }

  /** Of two honoured presentations of one token the first rotated and the second was grace. */
  lemma HonouredTwice(family: string, exp: int, attempts: seq<Attempt>, i: nat, k: nat)
    requires Fresh(family, exp, attempts)
    requires i < k < |attempts| && attempts[i].jti == attempts[k].jti
    requires Answers(family, exp, attempts)[i].Honoured? && Answers(family, exp, attempts)[k].Honoured?
    ensures Answers(family, exp, attempts)[i].rotation && !Answers(family, exp, attempts)[k].rotation
  {
    hide Step;
    hide Answers;
    hide RowAfter;
    hide Generations;
    hide Fresh;
    hide Distinct;
    var before := attempts[..k];
    AnswerAt(family, exp, attempts, k);
    AnswersPrefix(family, exp, attempts, k);
    assert Answers(family, exp, before)[i] == Answers(family, exp, attempts)[i];
    FreshPrefix(family, exp, attempts, k);
    RowHoldsYoungest(family, exp, before);
    var p := AnswersFollowGenerations(family, exp, before, i);
    if !Answers(family, exp, before)[i].rotation {
      GraceIsRecorded(family, exp, before, i);
    }
    HonouredAgain(family, exp, Generations(family, exp, before), RowAfter(family, exp, before), attempts[k], p);
  }

  lemma HonouredAgain(family: string, exp: int, g: seq<string>, row: Option<Row>, a: Attempt, p: nat)
    requires NamesLastTwo(g, exp, row) && p + 1 < |g| && a.jti == g[p]
    requires Step(family, exp, row, a).1.Honoured?
    ensures !Step(family, exp, row, a).1.rotation
    ensures row.Some? && row.value.previousJti == Some(a.jti) && !row.value.graceUsed
  {
    assert g[p] != g[|g| - 1];
  }

  /** A token is honoured at most twice. */
  lemma NeverHonouredThrice(family: string, exp: int, attempts: seq<Attempt>, i: nat, k: nat, m: nat)
    requires Fresh(family, exp, attempts)
    requires i < k < m < |attempts| && attempts[i].jti == attempts[k].jti == attempts[m].jti
    ensures !(forall x | x in {i, k, m} :: Answers(family, exp, attempts)[x].Honoured?)
  {
    if forall x | x in {i, k, m} :: Answers(family, exp, attempts)[x].Honoured? {
      HonouredTwice(family, exp, attempts, i, k);
      HonouredTwice(family, exp, attempts, k, m);
    }
  }

  // ---------------------------------------------------------------- the rule by generation

  predicate InGrace(row: Row, now: real) {
    !row.graceUsed && now - row.rotatedAt < REFRESH_GRACE_MAX_SEC
  }

  lemma RuleForRow(family: string, exp: int, g: seq<string>, row: Option<Row>, p: nat, a: Attempt)
    requires NamesLastTwo(g, exp, row) && g[0] == family
    requires p < |g| && a.jti == g[p]
    ensures var (row', answer) := Step(family, exp, row, a);
            var n := |g| - 1;
            && row'.Some?
            && (if n > 0 && row.value.revokedAt.Some? then
                  row' == row && answer == Refused(RefreshRevoked)
                else if p == n then
                  answer == Honoured(a.next, true) && row'.value.revokedAt.None?
                else if p == n - 1 && InGrace(row.value, a.now) then
                  answer == Honoured(g[n], false) && row'.value.revokedAt.None?
                else
                  answer == Refused(RefreshReused) && row'.value.revokedAt.Some?)
  {
    assert p < |g| - 1 ==> g[p] != Last(g);
    assert p < |g| - 2 ==> g[p] != g[|g| - 2];
  }

  /** The rule said of generations instead of columns: with n the youngest generation, an
      unrevoked chain rotates n, answers n - 1 once within a day of the rotation, and revokes
      itself when it is shown anything else, above all a generation n - 2 or older. */
  lemma RuleByGeneration(family: string, exp: int, attempts: seq<Attempt>, p: nat, a: Attempt)
    requires Fresh(family, exp, attempts)
    requires p < |Generations(family, exp, attempts)| && a.jti == Generations(family, exp, attempts)[p]
    ensures var g, row := Generations(family, exp, attempts), RowAfter(family, exp, attempts);
            var (row', answer) := Step(family, exp, row, a);
            var n := |g| - 1;
            && row'.Some?
            && (row.None? <==> n == 0)
            && (if n > 0 && row.value.revokedAt.Some? then
                  row' == row && answer == Refused(RefreshRevoked)
                else if p == n then
                  answer == Honoured(a.next, true) && row'.value.revokedAt.None?
                else if p == n - 1 && InGrace(row.value, a.now) then
                  answer == Honoured(g[n], false) && row'.value.revokedAt.None?
                else
                  answer == Refused(RefreshReused) && row'.value.revokedAt.Some?)
  {
    hide Step;
    hide Distinct;
    RowHoldsYoungest(family, exp, attempts);
    RuleForRow(family, exp, Generations(family, exp, attempts), RowAfter(family, exp, attempts), p, a);
  }

  lemma {:induction false} RevocationStays(family: string, exp: int, attempts: seq<Attempt>, i: nat)
    requires i <= |attempts|
    requires RowAfter(family, exp, attempts[..i]).Some?
    requires RowAfter(family, exp, attempts[..i]).value.revokedAt.Some?
    ensures RowAfter(family, exp, attempts) == RowAfter(family, exp, attempts[..i])
    ensures forall k :: i <= k < |attempts| ==> Answers(family, exp, attempts)[k] == Refused(RefreshRevoked)
  {
    if i == |attempts| {
      assert attempts[..i] == attempts;
    } else {
      assert Front(attempts)[..i] == attempts[..i];
      RevocationStays(family, exp, Front(attempts), i);
    }
  }

  /** Once any token of a chain was refused as reused, no token of it is honoured again. */
  lemma ReuseEndsChain(family: string, exp: int, attempts: seq<Attempt>, i: nat, k: nat)
    requires i < k < |attempts|
    requires Answers(family, exp, attempts)[i] == Refused(RefreshReused)
    ensures Answers(family, exp, attempts)[k] == Refused(RefreshRevoked)
  {
    AnswerAt(family, exp, attempts, i);
    RevocationStays(family, exp, attempts, i + 1);
  }
}
