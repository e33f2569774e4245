/**
 What the grace rule of server/src/auth/refresh-rotation.ts buys its honest users: a client
 that loses replies, and two holders of one token (two browser tabs).

 Both are stated over every schedule of attempts on a chain, with the exact condition under
 which nobody is refused.
 */
module RefreshClients {
  import opened Options
  import opened Sequences
  import opened RefreshRotation

  ghost predicate AllHonoured(family: string, exp: int, attempts: seq<Attempt>) {
    forall k :: 0 <= k < |attempts| ==> Answers(family, exp, attempts)[k].Honoured?
  }

  lemma AllHonouredFront(family: string, exp: int, attempts: seq<Attempt>)
    requires attempts != []
    ensures AllHonoured(family, exp, attempts) <==>
            AllHonoured(family, exp, Front(attempts)) && Last(Answers(family, exp, attempts)).Honoured?
  {
    var n := |attempts| - 1;
    var r, r' := Answers(family, exp, attempts), Answers(family, exp, Front(attempts));
    assert forall k :: 0 <= k < n ==> r[k] == r'[k];
  }

  // ---------------------------------------------------------------- one client, lost replies

  /** The token a client holds: it keeps the one it sent until a reply reaches it. */
  function Held(family: string, exp: int, attempts: seq<Attempt>, delivered: seq<bool>): string
    requires |delivered| == |attempts|
  {
    if attempts == [] then family
    else
      var answer := Last(Answers(family, exp, attempts));
      if Last(delivered) && answer.Honoured? then answer.jti else Last(attempts).jti
  }

  /** All attempts on the chain come from one client that presents what it holds, and
      delivered[k] says whether the reply to attempt k arrived. */
  ghost predicate OneClient(family: string, exp: int, attempts: seq<Attempt>, delivered: seq<bool>) {
    && |delivered| == |attempts|
    && (attempts != [] ==>
          && OneClient(family, exp, Front(attempts), Front(delivered))
          && Last(attempts).jti == Held(family, exp, Front(attempts), Front(delivered)))
  }

  /** At most one reply in a row was lost before attempt k, and a retry came within a day. */
  predicate Forgivable(attempts: seq<Attempt>, delivered: seq<bool>, k: nat)
    requires k < |attempts| == |delivered|
  {
    || k == 0
    || delivered[k - 1]
    || ((k == 1 || delivered[k - 2]) && attempts[k].now - attempts[k - 1].now < REFRESH_GRACE_MAX_SEC)
  }

  ghost predicate AllForgivable(attempts: seq<Attempt>, delivered: seq<bool>)
    requires |attempts| == |delivered|
  {
    forall k :: 0 <= k < |attempts| ==> Forgivable(attempts, delivered, k)
  }

  lemma AllForgivableFront(attempts: seq<Attempt>, delivered: seq<bool>)
    requires attempts != [] && |attempts| == |delivered|
    ensures AllForgivable(attempts, delivered) <==>
            && AllForgivable(Front(attempts), Front(delivered))
            && Forgivable(attempts, delivered, |attempts| - 1)
  {
    forall k | 0 <= k < |attempts| - 1
      ensures Forgivable(attempts, delivered, k) == Forgivable(Front(attempts), Front(delivered), k)
    {
    }
  }

  /** What became of the replies just before an attempt. */
  datatype Past = Nothing | Arrived | Lost(twice: bool, at: real)

  function PastOf(attempts: seq<Attempt>, delivered: seq<bool>): Past
    requires |attempts| == |delivered|
  {
    var k := |attempts|;
    if k == 0 then Nothing
    else if delivered[k - 1] then Arrived
    else Lost(k >= 2 && !delivered[k - 2], attempts[k - 1].now)
  }

  /** The row as a client that was never refused finds it: nothing before its first attempt, its
      token current after a delivered reply, its token previous after a lost one, and the grace
      answer gone after two lost ones. */
  ghost predicate Sees(row: Option<Row>, family: string, held: string, past: Past) {
    match past
    case Nothing => row.None? && held == family
    case Arrived => row.Some? && row.value.revokedAt.None? && held == row.value.currentJti
    case Lost(twice, at) =>
      && row.Some? && row.value.revokedAt.None?
      && Some(held) == row.value.previousJti && held != row.value.currentJti
      && row.value.graceUsed == twice
      && (!twice ==> row.value.rotatedAt == at)
  }

  lemma SeesNext(family: string, exp: int, row: Option<Row>, past: Past, a: Attempt, arrives: bool)
    requires Sees(row, family, a.jti, past) && a.next != a.jti
    ensures var (row', answer) := Step(family, exp, row, a);
            && (answer.Honoured? <==>
                  (past.Lost? ==> !past.twice && a.now - past.at < REFRESH_GRACE_MAX_SEC))
            && (answer.Honoured? ==>
                  Sees(row', family, if arrives then answer.jti else a.jti,
                       if arrives then Arrived else Lost(past.Lost?, a.now)))
  {
  }

  lemma {:induction false} ClientView(family: string, exp: int, attempts: seq<Attempt>, delivered: seq<bool>)
    requires Fresh(family, exp, attempts) && OneClient(family, exp, attempts, delivered)
    ensures AllHonoured(family, exp, attempts) <==> AllForgivable(attempts, delivered)
    ensures AllHonoured(family, exp, attempts) ==>
            Sees(RowAfter(family, exp, attempts), family, Held(family, exp, attempts, delivered),
                 PastOf(attempts, delivered))
  {
    hide Step;
    if attempts != [] {
      var earlier, replies, a := Front(attempts), Front(delivered), Last(attempts);
      ClientView(family, exp, earlier, replies);
      AllHonouredFront(family, exp, attempts);
      AllForgivableFront(attempts, delivered);
      if AllHonoured(family, exp, earlier) {
        RowHoldsYoungest(family, exp, earlier);
        assert a.jti in Generations(family, exp, earlier);
        SeesNext(family, exp, RowAfter(family, exp, earlier), PastOf(earlier, replies), a, Last(delivered));
      }
    }
  }

  /** A client alone on its chain is never refused if and only if it never loses two replies in a
      row before another attempt, and retries a lost one within a day of the rotation it lost. */
  lemma LoneClientNeverRefused(family: string, exp: int, attempts: seq<Attempt>, delivered: seq<bool>)
    requires Fresh(family, exp, attempts) && OneClient(family, exp, attempts, delivered)
    ensures AllHonoured(family, exp, attempts) <==> AllForgivable(attempts, delivered)
  {
    ClientView(family, exp, attempts, delivered);
  }

  // ---------------------------------------------------------------- two holders of one token

  /** The tokens of the two holders after the given attempts: who[k] says whether the first
      holder made attempt k, delivered[k] whether the reply to it arrived. */
  function Holders(family: string, exp: int, attempts: seq<Attempt>, who: seq<bool>, delivered: seq<bool>):
    (string, string)
    requires |who| == |delivered| == |attempts|
  {
    if attempts == [] then (family, family)
    else
      Received(Holders(family, exp, Front(attempts), Front(who), Front(delivered)), Last(who), Last(delivered),
               Last(Answers(family, exp, attempts)))
  }

  /** A holder takes the token of a reply that reaches it. */
  function Received(holders: (string, string), first: bool, arrives: bool, answer: Answer): (string, string) {
    if answer.Refused? || !arrives then holders
    else if first then (answer.jti, holders.1) else (holders.0, answer.jti)
  }

  function HeldBy(holders: (string, string), first: bool): string {
    if first then holders.0 else holders.1
  }

  /** Every attempt on the chain is one of two holders presenting what it holds. */
  ghost predicate TwoHolders(family: string, exp: int, attempts: seq<Attempt>, who: seq<bool>, delivered: seq<bool>) {
    && |who| == |delivered| == |attempts|
    && (attempts != [] ==>
          && TwoHolders(family, exp, Front(attempts), Front(who), Front(delivered))
          && Last(attempts).jti ==
             HeldBy(Holders(family, exp, Front(attempts), Front(who), Front(delivered)), Last(who)))
  }

  ghost predicate AllDelivered(delivered: seq<bool>) {
    forall k :: 0 <= k < |delivered| ==> delivered[k]
  }

  /** One of the two holders has the current token, both have tokens of the chain, and a holder
      of the previous token still has its grace answer. */
  ghost predicate HoldersOk(g: seq<string>, row: Option<Row>, holders: (string, string))
    requires row.Some? ==> |g| >= 2
  {
    && g != [] && holders.0 in g && holders.1 in g
    && (holders.0 == Last(g) || holders.1 == Last(g))
    && (row.Some? ==> row.value.revokedAt.None?)
    && (row.Some? && row.value.graceUsed ==> holders.0 != g[|g| - 2] && holders.1 != g[|g| - 2])
  }

  lemma HoldersNext(family: string, exp: int, g: seq<string>, row: Option<Row>, holders: (string, string),
                    first: bool, a: Attempt)
    requires NamesLastTwo(g, exp, row) && g[0] == family && HoldersOk(g, row, holders)
    requires a.jti == HeldBy(holders, first) && a.next !in g
    requires Step(family, exp, row, a).1.Honoured?
    ensures var (row', answer) := Step(family, exp, row, a);
            var g' := if answer.rotation then g + [a.next] else g;
            && (row'.Some? ==> |g'| >= 2)
            && HoldersOk(g', row', if first then (answer.jti, holders.1) else (holders.0, answer.jti))
  {
  }

  /** What HoldersOk says stays true while nobody is refused. */
  lemma {:induction false} HoldersInvariant(family: string, exp: int, attempts: seq<Attempt>, who: seq<bool>,
                                            delivered: seq<bool>)
    requires Fresh(family, exp, attempts) && TwoHolders(family, exp, attempts, who, delivered)
    requires AllDelivered(delivered) && AllHonoured(family, exp, attempts)
    ensures var g, row := Generations(family, exp, attempts), RowAfter(family, exp, attempts);
            (row.Some? ==> |g| >= 2) && HoldersOk(g, row, Holders(family, exp, attempts, who, delivered))
  {
    hide Step;
    RowHoldsYoungest(family, exp, attempts);
    if attempts != [] {
      hide HoldersOk;
      var before, a := Front(attempts), Last(attempts);
      var g, row := Generations(family, exp, before), RowAfter(family, exp, before);
      AllHonouredFront(family, exp, attempts);
      HoldersInvariant(family, exp, before, Front(who), Front(delivered));
      RowHoldsYoungest(family, exp, before);
      StepKeepsLastTwo(family, exp, g, row, a);
      HoldersNext(family, exp, g, row, Holders(family, exp, before, Front(who), Front(delivered)), Last(who), a);
    }
  }

  /** After any schedule of two holders without a refusal or a lost reply, the next presentation is
      honoured if and only if the presenter is at most one generation behind (and, when behind,
      within a day); a holder that was behind then has the other holder's token, the current one. */
  lemma HoldersConverge(family: string, exp: int, attempts: seq<Attempt>, who: seq<bool>, delivered: seq<bool>,
                        first: bool, a: Attempt)
    requires Fresh(family, exp, attempts) && TwoHolders(family, exp, attempts, who, delivered)
    requires AllDelivered(delivered) && AllHonoured(family, exp, attempts)
    requires a.jti == HeldBy(Holders(family, exp, attempts, who, delivered), first)
    ensures var g, row := Generations(family, exp, attempts), RowAfter(family, exp, attempts);
            var answer := Step(family, exp, row, a).1;
            var other := HeldBy(Holders(family, exp, attempts, who, delivered), !first);
            && (answer.Honoured? <==>
                  || a.jti == Last(g)
                  || (|g| >= 2 && a.jti == g[|g| - 2] && a.now - row.value.rotatedAt < REFRESH_GRACE_MAX_SEC))
            && (answer.Honoured? && a.jti != Last(g) ==> answer.jti == other == Last(g))
  {
    HoldersInvariant(family, exp, attempts, who, delivered);
    RowHoldsYoungest(family, exp, attempts);
    var g := Generations(family, exp, attempts);
    var p :| 0 <= p < |g| && g[p] == a.jti;
    RuleByGeneration(family, exp, attempts, p, a);
  }
}
