/**
 Two holders of one token, such as two browser tabs, over whole schedules with lost replies: the
 exact condition under which neither of them is ever refused (the grace rule of
 server/src/auth/refresh-rotation.ts).

 While both holders are still to present, they survive together only in step: no reply is lost,
 and each rotation is followed by the other holder within a day. Once one of them has presented
 for the last time, the other one is a lone client, with the condition of RefreshClients.
 */
module RefreshHolders {
  import opened Options
  import opened Sequences
  import opened RefreshRotation
  import opened RefreshClients

  /** A chain whose attempts are all made by two holders. */
  datatype Sharing = Sharing(family: string, exp: int, attempts: seq<Attempt>, who: seq<bool>, delivered: seq<bool>) {
    predicate Lengths() {
      |who| == |delivered| == |attempts|
    }

    ghost predicate Valid() {
      Lengths() && Fresh(family, exp, attempts) && TwoHolders(family, exp, attempts, who, delivered)
    }

    /** The row, the holders' tokens and the answer around attempt k. */
    function Row(k: nat): Option<Row>
      requires k <= |attempts|
    {
      RowAfter(family, exp, attempts[..k])
    }

    function Tokens(k: nat): (string, string)
      requires Lengths() && k <= |attempts|
    {
      Holders(family, exp, attempts[..k], who[..k], delivered[..k])
    }

    function Reply(k: nat): Answer
      requires k < |attempts|
    {
      Answers(family, exp, attempts)[k]
    }

    ghost predicate HonouredUpTo(k: nat) {
      k <= |attempts| && forall j :: 0 <= j < k ==> Reply(j).Honoured?
    }
  }

  // ---------------------------------------------------------------- one attempt

  lemma {:induction false} TwoHoldersPrefix(s: Sharing, k: nat)
    requires s.Valid() && k <= |s.attempts|
    ensures TwoHolders(s.family, s.exp, s.attempts[..k], s.who[..k], s.delivered[..k])
    decreases |s.attempts| - k
  {
    hide Fresh;
    hide Holders;
    if k == |s.attempts| {
      assert s.attempts[..k] == s.attempts && s.who[..k] == s.who && s.delivered[..k] == s.delivered;
    } else {
      TwoHoldersPrefix(s, k + 1);
      assert Front(s.attempts[..k + 1]) == s.attempts[..k];
      assert Front(s.who[..k + 1]) == s.who[..k] && Front(s.delivered[..k + 1]) == s.delivered[..k];
    }
  }

  lemma ValidPrefix(s: Sharing, k: nat)
    requires s.Valid() && k <= |s.attempts|
    ensures Fresh(s.family, s.exp, s.attempts[..k])
    ensures TwoHolders(s.family, s.exp, s.attempts[..k], s.who[..k], s.delivered[..k])
  {
    hide Fresh;
    hide TwoHolders;
    FreshPrefix(s.family, s.exp, s.attempts, k);
    TwoHoldersPrefix(s, k);
  }

  lemma {:induction false} TokensInChain(family: string, exp: int, attempts: seq<Attempt>, who: seq<bool>,
                                         delivered: seq<bool>)
    requires Fresh(family, exp, attempts) && TwoHolders(family, exp, attempts, who, delivered)
    ensures var tokens, g := Holders(family, exp, attempts, who, delivered), Generations(family, exp, attempts);
            tokens.0 in g && tokens.1 in g
  {
    hide Step;
    if attempts != [] {
      var before := Front(attempts);
      var g, row := Generations(family, exp, before), RowAfter(family, exp, before);
      TokensInChain(family, exp, before, Front(who), Front(delivered));
      RowHoldsYoungest(family, exp, before);
      AnsweredJti(family, exp, g, row, Last(attempts));
    }
  }

  /** Attempt k is its holder's token judged against the row; the jti drawn for it is nobody's. */
  lemma Next(s: Sharing, k: nat)
    requires s.Valid() && k < |s.attempts|
    ensures var a := s.attempts[k];
            && (s.Row(k + 1), s.Reply(k)) == Step(s.family, s.exp, s.Row(k), a)
            && a.jti == HeldBy(s.Tokens(k), s.who[k])
            && a.next != s.Tokens(k).0 && a.next != s.Tokens(k).1
            && s.Tokens(k + 1) == Received(s.Tokens(k), s.who[k], s.delivered[k], s.Reply(k))
  {
    hide Step;
    var upTo := s.attempts[..k + 1];
    ValidPrefix(s, k);
    ValidPrefix(s, k + 1);
    AnswerAt(s.family, s.exp, s.attempts, k);
    AnswersPrefix(s.family, s.exp, s.attempts, k + 1);
    TokensInChain(s.family, s.exp, s.attempts[..k], s.who[..k], s.delivered[..k]);
    assert Front(upTo) == s.attempts[..k];
    assert Front(s.who[..k + 1]) == s.who[..k] && Front(s.delivered[..k + 1]) == s.delivered[..k];
    assert Last(Answers(s.family, s.exp, upTo)) == s.Reply(k);
  }

  // ---------------------------------------------------------------- what a row means to holders

  /** Both holders have the current token. */
  ghost predicate Together(row: Option<Row>, family: string, tokens: (string, string)) {
    && tokens.0 == tokens.1
    && (if row.None? then tokens.0 == family
        else row.value.revokedAt.None? && row.value.currentJti == tokens.0)
  }

  /** One holder has the current token, the other the one before, with its grace answer unspent. */
  ghost predicate Ahead(row: Option<Row>, tokens: (string, string), first: bool, at: real) {
    && row.Some? && row.value.revokedAt.None? && !row.value.graceUsed && row.value.rotatedAt == at
    && row.value.currentJti == HeldBy(tokens, first)
    && row.value.previousJti == Some(HeldBy(tokens, !first))
    && HeldBy(tokens, first) != HeldBy(tokens, !first)
  }

  /** A token that will be refused whenever it is presented. */
  ghost predicate Doomed(row: Option<Row>, token: string) {
    row.Some? && row.value.currentJti != token && (row.value.previousJti == Some(token) ==> row.value.graceUsed)
  }

  /** From the same token, a holder rotates. */
  lemma TogetherRotates(s: Sharing, k: nat)
    requires s.Valid() && k < |s.attempts| && Together(s.Row(k), s.family, s.Tokens(k))
    ensures s.Reply(k) == Honoured(s.attempts[k].next, true)
    ensures s.delivered[k] ==> Ahead(s.Row(k + 1), s.Tokens(k + 1), s.who[k], s.attempts[k].now)
    ensures !s.delivered[k] ==> s.Tokens(k + 1) == s.Tokens(k)
    ensures var row, token := s.Row(k + 1), s.Tokens(k).0;
            && row.Some? && row.value.revokedAt.None? && !row.value.graceUsed
            && row.value.rotatedAt == s.attempts[k].now
            && row.value.previousJti == Some(token) && row.value.currentJti != token
  {
    Next(s, k);
  }

  /** The holder that is behind is honoured within a day, and then both are together again unless
      the reply is lost, which dooms its token. */
  lemma BehindIsAnswered(s: Sharing, k: nat, at: real)
    requires s.Valid() && k < |s.attempts| && Ahead(s.Row(k), s.Tokens(k), !s.who[k], at)
    ensures s.Reply(k).Honoured? <==> s.attempts[k].now - at < REFRESH_GRACE_MAX_SEC
    ensures s.Reply(k).Honoured? && s.delivered[k] ==> Together(s.Row(k + 1), s.family, s.Tokens(k + 1))
    ensures s.Reply(k).Honoured? && !s.delivered[k] ==> Doomed(s.Row(k + 1), HeldBy(s.Tokens(k + 1), s.who[k]))
    ensures s.Reply(k).Honoured? ==>
            && s.Row(k + 1).Some? && s.Row(k + 1).value.revokedAt.None?
            && s.Row(k + 1).value.currentJti == HeldBy(s.Tokens(k + 1), !s.who[k])
  {
    Next(s, k);
  }

  /** If the holder that is ahead presents again, it dooms the other one. */
  lemma AheadDooms(s: Sharing, k: nat, at: real)
    requires s.Valid() && k < |s.attempts| && Ahead(s.Row(k), s.Tokens(k), s.who[k], at)
    ensures Doomed(s.Row(k + 1), HeldBy(s.Tokens(k + 1), !s.who[k]))
  {
    Next(s, k);
  }

  /** Both are behind after a lost rotation: whoever is answered first dooms the other one. */
  lemma BothBehind(s: Sharing, k: nat)
    requires s.Valid() && k < |s.attempts|
    requires var row, tokens := s.Row(k), s.Tokens(k);
             && row.Some? && row.value.revokedAt.None? && tokens.0 == tokens.1
             && row.value.previousJti == Some(tokens.0) && row.value.currentJti != tokens.0
    requires s.Reply(k).Honoured?
    ensures Doomed(s.Row(k + 1), HeldBy(s.Tokens(k + 1), !s.who[k]))
  {
    Next(s, k);
  }

  lemma DoomedStays(family: string, exp: int, row: Option<Row>, token: string, a: Attempt)
    requires Doomed(row, token) && a.next != token
    ensures var (row', answer) := Step(family, exp, row, a);
            && (a.jti == token ==> answer.Refused?)
            && (answer.Honoured? ==> Doomed(row', token))
  {
  }

  lemma {:induction false} DoomedIsRefused(s: Sharing, k: nat, m: nat)
    requires s.Valid() && k <= m < |s.attempts| && Doomed(s.Row(k), HeldBy(s.Tokens(k), s.who[m]))
    ensures !s.HonouredUpTo(m + 1)
    decreases m - k
  {
    hide Fresh;
    hide TwoHolders;
    hide RowAfter;
    hide Holders;
    hide Answers;
    hide Step;
    hide Doomed;
    Next(s, k);
    DoomedStays(s.family, s.exp, s.Row(k), HeldBy(s.Tokens(k), s.who[m]), s.attempts[k]);
    if s.Reply(k).Honoured? {
      assert s.who[k] != s.who[m];
      DoomedIsRefused(s, k + 1, m);
    }
  }

  // ---------------------------------------------------------------- while both are to present

  /** The last attempt of one holder, or -1. */
  function LastOf(who: seq<bool>, first: bool): (t: int)
    ensures -1 <= t < |who|
    ensures t >= 0 ==> who[t] == first
    ensures forall k :: t < k < |who| ==> who[k] != first
  {
    if who == [] then -1
    else if Last(who) == first then |who| - 1
    else LastOf(Front(who), first)
  }

  /** The holder that presents for the last time before the other one does. */
  function Quitter(who: seq<bool>): bool {
    LastOf(who, true) <= LastOf(who, false)
  }

  /** Its last attempt, or -1 when it makes none. */
  function Until(who: seq<bool>): (t: int)
    ensures -1 <= t < |who|
  {
    LastOf(who, Quitter(who))
  }

  /** Before `Until` everybody presents again, and after it only one of them does. */
  lemma PresentsAgain(who: seq<bool>, k: nat, first: bool) returns (m: nat)
    requires k <= Until(who)
    requires k == Until(who) ==> first != who[k]
    ensures k <= m < |who| && who[m] == first && (k == Until(who) ==> m > k)
  {
    m := LastOf(who, first);
  }

  /** The first k attempts are in step: no reply is lost before `Until`, and every second attempt
      is the other holder's, within a day. */
  ghost predicate InStep(s: Sharing, k: nat)
    requires s.Lengths()
  {
    && (forall j :: 0 <= j < k && j < Until(s.who) && j < |s.who| ==> s.delivered[j])
    && (forall j :: 0 < j < k && j < |s.who| && j % 2 == 1 ==>
          s.who[j] != s.who[j - 1] && s.attempts[j].now - s.attempts[j - 1].now < REFRESH_GRACE_MAX_SEC)
  }

  lemma StartTogether(s: Sharing)
    requires s.Lengths()
    ensures Together(s.Row(0), s.family, s.Tokens(0))
  {
  }

  lemma InStepMore(s: Sharing, k: nat)
    requires s.Lengths() && k < |s.attempts|
    ensures InStep(s, k + 1) <==>
            && InStep(s, k)
            && (k < Until(s.who) ==> s.delivered[k])
            && (k % 2 == 1 ==>
                  && s.who[k] != s.who[k - 1]
                  && s.attempts[k].now - s.attempts[k - 1].now < REFRESH_GRACE_MAX_SEC)
  {
    hide LastOf;
  }

  /** In step, the holders are together before every even attempt and one apart before an odd one. */
  lemma {:induction false} InStepState(s: Sharing, k: nat)
    requires s.Valid() && k <= Until(s.who) && InStep(s, k)
    ensures s.HonouredUpTo(k)
    ensures if k % 2 == 0 then Together(s.Row(k), s.family, s.Tokens(k))
            else Ahead(s.Row(k), s.Tokens(k), s.who[k - 1], s.attempts[k - 1].now)
  {
    hide Fresh;
    hide TwoHolders;
    hide RowAfter;
    hide Holders;
    hide Answers;
    hide Together;
    hide Ahead;
    hide LastOf;
    if k == 0 {
      StartTogether(s);
    } else {
      InStepState(s, k - 1);
      if k % 2 == 1 {
        TogetherRotates(s, k - 1);
      } else {
        BehindIsAnswered(s, k - 1, s.attempts[k - 2].now);
      }
    }
  }

  /** Whoever is doomed and presents again is refused. */
  lemma RefusedLater(s: Sharing, k: nat, first: bool)
    requires s.Valid() && 0 < k <= |s.attempts| && k - 1 <= Until(s.who)
    requires k - 1 == Until(s.who) ==> first != s.who[k - 1]
    requires s.who[k - 1] == first ==> k - 1 < Until(s.who)
    requires Doomed(s.Row(k), HeldBy(s.Tokens(k), first))
    ensures !s.HonouredUpTo(|s.attempts|)
  {
    var m: nat;
    if k <= Until(s.who) && (k == Until(s.who) ==> first != s.who[k]) {
      m := PresentsAgain(s.who, k, first);
    } else if k == Until(s.who) {
      m := k;
    } else {
      m := PresentsAgain(s.who, k - 1, first);
    }
    DoomedIsRefused(s, k, m);
  }

  /** If nobody is ever refused, the holders are in step as long as both are to present. */
  lemma {:induction false} MustBeInStep(s: Sharing, k: nat)
    requires s.Valid() && s.HonouredUpTo(|s.attempts|) && k <= Until(s.who) + 1
    ensures InStep(s, k)
  {
    hide Fresh;
    hide TwoHolders;
    hide LastOf;
    if k > 0 {
      hide InStep;
      MustBeInStep(s, k - 1);
      StaysInStep(s, k - 1);
    }
  }

  lemma StaysInStep(s: Sharing, k: nat)
    requires s.Valid() && s.HonouredUpTo(|s.attempts|) && k <= Until(s.who) && InStep(s, k)
    ensures InStep(s, k + 1)
  {
    hide Fresh;
    hide TwoHolders;
    hide RowAfter;
    hide Holders;
    hide Answers;
    hide Together;
    hide Ahead;
    hide LastOf;
    hide InStep;
    InStepState(s, k);
    InStepMore(s, k);
    if k % 2 == 0 {
      EvenIsInStep(s, k);
    } else {
      OddIsInStep(s, k);
    }
  }

  lemma EvenIsInStep(s: Sharing, k: nat)
    requires s.Valid() && s.HonouredUpTo(|s.attempts|) && k <= Until(s.who)
    requires Together(s.Row(k), s.family, s.Tokens(k))
    ensures k < Until(s.who) ==> s.delivered[k]
  {
    if k < Until(s.who) && !s.delivered[k] {
      TogetherRotates(s, k);
      assert s.Reply(k + 1).Honoured?;
      BothBehind(s, k + 1);
      RefusedLater(s, k + 2, !s.who[k + 1]);
    }
  }

  lemma OddIsInStep(s: Sharing, k: nat)
    requires s.Valid() && s.HonouredUpTo(|s.attempts|) && 0 < k <= Until(s.who)
    requires Ahead(s.Row(k), s.Tokens(k), s.who[k - 1], s.attempts[k - 1].now)
    ensures k < Until(s.who) ==> s.delivered[k]
    ensures s.who[k] != s.who[k - 1] && s.attempts[k].now - s.attempts[k - 1].now < REFRESH_GRACE_MAX_SEC
  {
    if s.who[k] == s.who[k - 1] {
      AheadDooms(s, k, s.attempts[k - 1].now);
      RefusedLater(s, k + 1, !s.who[k]);
    }
    assert s.Reply(k).Honoured?;
    BehindIsAnswered(s, k, s.attempts[k - 1].now);
    if k < Until(s.who) && !s.delivered[k] {
      RefusedLater(s, k + 1, s.who[k]);
    }
  }

  // ---------------------------------------------------------------- when one of them is left

  /** The replies as the one that is left sees them: the other's last attempt is to it a lost reply
      when it rotated the chain, and a delivered one when it was answered by grace. */
  function Seen(s: Sharing): (d: seq<bool>)
    requires s.Lengths()
    ensures |d| == |s.attempts|
  {
    var t := Until(s.who);
    if t < 0 then s.delivered else s.delivered[t := t % 2 == 1]
  }

  /** From `Until` on, up to attempt k, no loss is beyond forgiveness. */
  ghost predicate LoneAfter(s: Sharing, k: nat)
    requires s.Lengths() && k <= |s.attempts|
  {
    forall j :: 0 <= j < k && j > Until(s.who) ==> Forgivable(s.attempts, Seen(s), j)
  }

  /** What the one that is left finds when the other one's last attempt was a rotation. */
  lemma LeftBehind(s: Sharing, t: nat)
    requires s.Valid() && t < |s.attempts| && Together(s.Row(t), s.family, s.Tokens(t))
    ensures Sees(s.Row(t + 1), s.family, HeldBy(s.Tokens(t + 1), !s.who[t]), Lost(false, s.attempts[t].now))
  {
    hide Fresh;
    hide TwoHolders;
    hide RowAfter;
    hide Holders;
    hide Answers;
    TogetherRotates(s, t);
    Next(s, t);
  }

  /** What it finds when that attempt was answered by grace. */
  lemma LeftAhead(s: Sharing, t: nat, at: real)
    requires s.Valid() && t < |s.attempts| && Ahead(s.Row(t), s.Tokens(t), !s.who[t], at)
    requires s.attempts[t].now - at < REFRESH_GRACE_MAX_SEC
    ensures s.Reply(t).Honoured?
    ensures Sees(s.Row(t + 1), s.family, HeldBy(s.Tokens(t + 1), !s.who[t]), Arrived)
  {
    hide Fresh;
    hide TwoHolders;
    hide RowAfter;
    hide Holders;
    hide Answers;
    BehindIsAnswered(s, t, at);
  }

  lemma LastSeen(s: Sharing)
    requires s.Lengths() && InStep(s, Until(s.who) + 1) && Until(s.who) >= 0
    ensures var t := Until(s.who);
            PastOf(s.attempts[..t + 1], Seen(s)[..t + 1]) ==
            if t % 2 == 1 then Arrived else Lost(false, s.attempts[t].now)
  {
    hide LastOf;
  }

  /** What the one that is left knows. */
  ghost predicate Alone(s: Sharing, k: nat)
    requires s.Lengths() && k <= |s.attempts|
  {
    Sees(s.Row(k), s.family, HeldBy(s.Tokens(k), !Quitter(s.who)), PastOf(s.attempts[..k], Seen(s)[..k]))
  }

  lemma AloneFromStart(s: Sharing)
    requires s.Lengths()
    ensures Alone(s, 0)
  {
  }

  lemma AloneAfterEven(s: Sharing, t: nat)
    requires s.Valid() && t == Until(s.who) && t % 2 == 0 && InStep(s, t + 1)
    requires Together(s.Row(t), s.family, s.Tokens(t))
    ensures s.Reply(t).Honoured? && Alone(s, t + 1)
  {
    hide Fresh;
    hide TwoHolders;
    hide RowAfter;
    hide Holders;
    hide Answers;
    hide Sees;
    hide PastOf;
    hide Seen;
    hide LastOf;
    hide InStep;
    hide Together;
    LastSeen(s);
    TogetherRotates(s, t);
    LeftBehind(s, t);
  }

  lemma AloneAfterOdd(s: Sharing, t: nat)
    requires s.Valid() && t == Until(s.who) && t % 2 == 1 && InStep(s, t + 1)
    requires Ahead(s.Row(t), s.Tokens(t), s.who[t - 1], s.attempts[t - 1].now)
    ensures s.Reply(t).Honoured? && Alone(s, t + 1)
  {
    hide Fresh;
    hide TwoHolders;
    hide RowAfter;
    hide Holders;
    hide Answers;
    hide Sees;
    hide PastOf;
    hide Seen;
    hide LastOf;
    hide Ahead;
    LastSeen(s);
    InStepMore(s, t);
    hide InStep;
    LeftAhead(s, t, s.attempts[t - 1].now);
  }

  /** The one that is left finds what a lone client finds. */
  lemma LeftAlone(s: Sharing)
    requires s.Valid() && InStep(s, Until(s.who) + 1)
    ensures s.HonouredUpTo(Until(s.who) + 1) && Alone(s, Until(s.who) + 1)
  {
    hide Fresh;
    hide TwoHolders;
    hide RowAfter;
    hide Holders;
    hide Answers;
    hide LastOf;
    hide InStep;
    hide Together;
    hide Ahead;
    hide Alone;
    var t := Until(s.who);
    if t < 0 {
      AloneFromStart(s);
    } else {
      InStepMore(s, t);
      InStepState(s, t);
      if t % 2 == 0 {
        AloneAfterEven(s, t);
      } else {
        AloneAfterOdd(s, t);
      }
    }
  }

  lemma ForgivenPast(s: Sharing, k: nat)
    requires s.Lengths() && k < |s.attempts|
    ensures var d, past := Seen(s), PastOf(s.attempts[..k], Seen(s)[..k]);
            && (Forgivable(s.attempts, d, k) <==>
                  (past.Lost? ==> !past.twice && s.attempts[k].now - past.at < REFRESH_GRACE_MAX_SEC))
            && PastOf(s.attempts[..k + 1], d[..k + 1]) ==
               (if d[k] then Arrived else Lost(past.Lost?, s.attempts[k].now))
  {
  }

  lemma {:induction false} AloneFrom(s: Sharing, k: nat)
    requires s.Valid() && InStep(s, Until(s.who) + 1) && Until(s.who) < k <= |s.attempts|
    ensures s.HonouredUpTo(k) <==> LoneAfter(s, k)
    ensures s.HonouredUpTo(k) ==> Alone(s, k)
  {
    hide Fresh;
    hide TwoHolders;
    hide RowAfter;
    hide Holders;
    hide Answers;
    hide Sees;
    hide Step;
    hide Forgivable;
    hide PastOf;
    hide InStep;
    hide LoneAfter;
    hide Seen;
    hide LastOf;
    if k == Until(s.who) + 1 {
      LeftAlone(s);
      NothingAfter(s, k);
    } else {
      var past := PastOf(s.attempts[..k - 1], Seen(s)[..k - 1]);
      AloneFrom(s, k - 1);
      Next(s, k - 1);
      ForgivenPast(s, k - 1);
      OneMoreAlone(s, k);
      SeenAfter(s, k - 1);
      assert s.who[k - 1] == !Quitter(s.who);
      if s.HonouredUpTo(k - 1) {
        SeesNext(s.family, s.exp, s.Row(k - 1), past, s.attempts[k - 1], s.delivered[k - 1]);
      }
    }
  }

  lemma NothingAfter(s: Sharing, k: nat)
    requires s.Lengths() && k == Until(s.who) + 1
    ensures k <= |s.attempts| && LoneAfter(s, k)
  {
  }

  lemma SeenAfter(s: Sharing, k: nat)
    requires s.Lengths() && Until(s.who) < k < |s.attempts|
    ensures Seen(s)[k] == s.delivered[k]
  {
  }

  lemma OneMoreAlone(s: Sharing, k: nat)
    requires s.Lengths() && Until(s.who) + 1 < k <= |s.attempts|
    ensures LoneAfter(s, k) <==> LoneAfter(s, k - 1) && Forgivable(s.attempts, Seen(s), k - 1)
    ensures s.HonouredUpTo(k) <==> s.HonouredUpTo(k - 1) && s.Reply(k - 1).Honoured?
  {
    hide Forgivable;
  }

  lemma AllIsUpTo(s: Sharing)
    ensures AllHonoured(s.family, s.exp, s.attempts) <==> s.HonouredUpTo(|s.attempts|)
  {
    hide Answers;
    if s.HonouredUpTo(|s.attempts|) {
      forall k | 0 <= k < |s.attempts| ensures Answers(s.family, s.exp, s.attempts)[k].Honoured? {
        assert s.Reply(k).Honoured?;
      }
    }
  }

  /** Neither of two holders is ever refused if and only if, as long as both are still to present,
      no reply is lost and every rotation is followed by the other holder within a day, and the one
      that is left then behaves as a lone client must. */
  lemma TwoHoldersNeverRefused(s: Sharing)
    requires s.Valid()
    ensures AllHonoured(s.family, s.exp, s.attempts) <==> InStep(s, Until(s.who) + 1) && LoneAfter(s, |s.attempts|)
  {
    hide Fresh;
    hide TwoHolders;
    hide RowAfter;
    hide Holders;
    hide Answers;
    hide LastOf;
    hide Sees;
    hide InStep;
    hide LoneAfter;
    AllIsUpTo(s);
    if s.HonouredUpTo(|s.attempts|) {
      MustBeInStep(s, Until(s.who) + 1);
    }
    if InStep(s, Until(s.who) + 1) {
      AloneFrom(s, |s.attempts|);
    }
  }

  /** A lost reply and a second holder together are too much: the first holder loses its reply, the
      second one is answered, and when the first one retries, in time, it is refused. */
  lemma LossAndSecondHolder(s: Sharing)
    requires s.Valid() && s.who == [true, false, true] && !s.delivered[0]
    ensures !AllHonoured(s.family, s.exp, s.attempts)
  {
    assert Front(s.who) == [true, false];
    assert LastOf(Front(s.who), false) == 1;
    assert LastOf(s.who, true) == 2 && LastOf(s.who, false) == 1;
    TwoHoldersNeverRefused(s);
  }
}
