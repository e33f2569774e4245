/**
 The event machine of server/src/backup/zip-upload.ts, `streamZipUpload`: the request body is
 piped to a file while `data`, `aborted`, `error`, `finish` and `end` may arrive in any order.

 `Handle` is the machine as a function of its state; class Upload runs the same handlers on
 fields. The laws are about every sequence of events.
 */
module ZipUpload {
  import opened Options
  import opened Sequences

  /** What the request is answered with: next(), next(err) or a 413. */
  datatype Reply = Passed | PassedError | TooLarge

  datatype Event =
    | MkdirDone
    | MkdirFailed
    | Data(length: nat)
    | Parsed            // req.complete becomes true
    | End               // the request's 'end'
    | AbortedByClient
    | WriteError
    | Finish

  datatype State = State(
    refused: bool,          // the declared length was over the limit: nothing else happens
    started: bool,          // the directory exists: the listeners are attached
    settled: bool,
    received: nat,
    complete: bool,
    awaitingEnd: bool,      // a 413 is to be sent on 'end'
    importZipFile: bool,    // the path was recorded on the request
    removals: nat,          // how often rm(file) was requested
    replies: seq<Reply>)

  /** The request arrives; `declared` is its Content-Length when that is a finite number. */
  function Arrive(limit: nat, declared: Option<int>): State {
    var refused := declared.Some? && declared.value > limit;
    State(refused, false, false, 0, false, false, false, 0, if refused then [TooLarge] else [])
  }

  function Fail(s: State, overLimit: bool): State {
    if s.settled then s
    else
      var s' := s.(settled := true, removals := s.removals + 1);
      if !overLimit then s'.(replies := s.replies + [PassedError])
      else if s.complete then s'.(replies := s.replies + [TooLarge])
      else s'.(awaitingEnd := true)
  }

  function Handle(limit: nat, s: State, e: Event): State {
    if s.refused then s
    else
      match e
      case MkdirDone => s.(started := true)
      case MkdirFailed => Fail(s, false)
      case Data(length) =>
        if !s.started then s
        else
          var s' := s.(received := s.received + length);
          if s'.received > limit && !s.settled then Fail(s', true) else s'
      case Parsed => s.(complete := true)
      case End =>
        var s' := s.(complete := true);
        if s.awaitingEnd then s'.(awaitingEnd := false, replies := s.replies + [TooLarge]) else s'
      case AbortedByClient => if s.started then Fail(s, false) else s
      case WriteError => if s.started then Fail(s, false) else s
      case Finish =>
        if s.started && !s.settled
        then s.(settled := true, importZipFile := true, replies := s.replies + [Passed])
        else s
  }

  function After(limit: nat, declared: Option<int>, events: seq<Event>): State {
    if events == [] then Arrive(limit, declared)
    else Handle(limit, After(limit, declared, Front(events)), Last(events))
  }

  // ---------------------------------------------------------------- what decides an upload

  /** The bytes that arrived while someone listened. */
  function ReceivedBy(events: seq<Event>): nat {
    if events == [] then 0
    else
      ReceivedBy(Front(events)) +
      (if Last(events).Data? && MkdirDone in Front(events) then Last(events).length else 0)
  }

  datatype Verdict = Undecided | Stored | Failed | OverLimit

  /** What an event means to an upload that nothing has decided yet. */
  function Meaning(limit: nat, started: bool, received: nat, e: Event): Verdict {
    match e
    case MkdirFailed => Failed
    case Finish => if started then Stored else Undecided
    case AbortedByClient => if started then Failed else Undecided
    case WriteError => if started then Failed else Undecided
    case Data(length) => if started && received + length > limit then OverLimit else Undecided
    case _ => Undecided
  }

  /** The first event that means anything decides. */
  function Decided(limit: nat, events: seq<Event>): Verdict {
    if events == [] then Undecided
    else
      var before := Decided(limit, Front(events));
      if before != Undecided then before
      else Meaning(limit, MkdirDone in Front(events), ReceivedBy(Front(events)), Last(events))
  }

  /** What the state has to say when `verdict` is what decided the upload: one outcome, the path
      recorded exactly on success, the file removed once and exactly on failure, and a 413 that
      waits for the client to finish sending. */
  ghost predicate Tells(s: State, verdict: Verdict) {
    && (s.settled <==> verdict != Undecided)
    && (s.importZipFile <==> verdict == Stored)
    && s.removals == (if verdict == Failed || verdict == OverLimit then 1 else 0)
    && (s.awaitingEnd ==> verdict == OverLimit)
    && s.replies == match verdict
                    case Undecided => []
                    case Stored => [Passed]
                    case Failed => [PassedError]
                    case OverLimit => if s.awaitingEnd then [] else [TooLarge]
  }

  lemma ArriveTells(limit: nat, declared: Option<int>)
    requires declared.Some? ==> declared.value <= limit
    ensures Tells(Arrive(limit, declared), Undecided)
  {
  }

  lemma HandleTells(limit: nat, s: State, verdict: Verdict, e: Event)
    requires !s.refused && Tells(s, verdict)
    ensures Tells(Handle(limit, s, e),
                  if verdict != Undecided then verdict else Meaning(limit, s.started, s.received, e))
  {
  }

  /** What the state records besides the outcome. */
  lemma HandleTracks(limit: nat, s: State, e: Event)
    requires !s.refused
    ensures var s' := Handle(limit, s, e);
            && !s'.refused && s'.started == (s.started || e.MkdirDone?)
            && s'.received == s.received + (if e.Data? && s.started then e.length else 0)
            && (e.End? || (s.complete && !s.awaitingEnd) ==> s'.complete && !s'.awaitingEnd)
            && (s.received <= limit && Meaning(limit, s.started, s.received, e) == Undecided ==> s'.received <= limit)
  {
  }

  /** Whatever the order of the events, the machine tells what the first decisive event says. */
  lemma {:induction false} FirstDecisiveEventDecides(limit: nat, declared: Option<int>, events: seq<Event>)
    requires declared.Some? ==> declared.value <= limit
    ensures var s := After(limit, declared, events);
            && Tells(s, Decided(limit, events))
            && !s.refused && s.started == (MkdirDone in events) && s.received == ReceivedBy(events)
            && (End in events ==> s.complete && !s.awaitingEnd)
            && (Decided(limit, events) == Undecided ==> s.received <= limit)
  {
    hide Handle;
    hide Tells;
    hide Meaning;
    if events == [] {
      ArriveTells(limit, declared);
    } else {
      FirstDecisiveEventDecides(limit, declared, Front(events));
      var s, e := After(limit, declared, Front(events)), Last(events);
      HandleTells(limit, s, Decided(limit, Front(events)), e);
      HandleTracks(limit, s, e);
      assert events == Front(events) + [e];
      assert forall x :: x in events <==> x in Front(events) || x == e;
    }
  }

  /** An upload is answered at most once; one that is stored had stayed within the limit when it
      was settled; one that failed has its file removed. */
  lemma OneOutcome(limit: nat, declared: Option<int>, events: seq<Event>, i: nat)
    requires i < |events|
    ensures var s := After(limit, declared, events);
            && |s.replies| <= 1 && (s.settled && End in events ==> |s.replies| == 1)
            && (s.replies == [Passed] <==> s.importZipFile)
            && (s.replies == [PassedError] || (s.replies == [TooLarge] && !s.refused) ==> s.removals == 1)
            && (s.importZipFile ==> s.removals == 0)
    ensures !After(limit, declared, events[..i]).settled && After(limit, declared, events[..i + 1]).importZipFile ==>
              ReceivedBy(events[..i + 1]) <= limit
  {
    assert Front(events[..i + 1]) == events[..i];
    if declared.Some? && declared.value > limit {
      RefusedStays(limit, declared, events);
      RefusedStays(limit, declared, events[..i + 1]);
    } else {
      FirstDecisiveEventDecides(limit, declared, events);
      FirstDecisiveEventDecides(limit, declared, events[..i]);
      FirstDecisiveEventDecides(limit, declared, events[..i + 1]);
    }
  }

  lemma {:induction false} RefusedStays(limit: nat, declared: Option<int>, events: seq<Event>)
    requires declared.Some? && declared.value > limit
    ensures After(limit, declared, events) == Arrive(limit, declared)
  {
    if events != [] {
      RefusedStays(limit, declared, Front(events));
    }
  }

  /** A declared length over the limit is answered with 413 at once, and nothing else ever happens;
      any other request starts unanswered. */
  lemma DeclaredDecides(limit: nat, declared: Option<int>, events: seq<Event>)
    ensures var s := After(limit, declared, events);
            if declared.Some? && declared.value > limit then
              s.replies == [TooLarge] && !s.importZipFile && s.removals == 0 && !s.started
            else !s.refused
    ensures (declared.None? || declared.value <= limit) ==>
              After(limit, declared, []) == State(false, false, false, 0, false, false, false, 0, [])
  {
    if declared.Some? && declared.value > limit {
      RefusedStays(limit, declared, events);
    } else {
      FirstDecisiveEventDecides(limit, declared, events);
    }
  }

  lemma ReceivedNext(events: seq<Event>, e: Event)
    ensures ReceivedBy([]) == 0
    ensures ReceivedBy(events + [e]) ==
            ReceivedBy(events) + (if e.Data? && MkdirDone in events then e.length else 0)
  {
    assert Front(events + [e]) == events;
  }

  /** Nothing has ended the upload: no failure, no end of the file, and never too many bytes. */
  lemma {:induction false} UndecidedExactly(limit: nat, events: seq<Event>)
    ensures Decided(limit, events) == Undecided <==>
            && (forall j :: 0 <= j < |events| ==>
                  && events[j] != MkdirFailed
                  && (MkdirDone in events[..j] ==>
                        events[j] != AbortedByClient && events[j] != WriteError && events[j] != Finish))
            && ReceivedBy(events) <= limit
  {
    if events != [] {
      var n, e := |events| - 1, Last(events);
      UndecidedExactly(limit, Front(events));
      ReceivedGrows(events);
      assert events == Front(events) + [e] && events[..n] == Front(events);
      assert forall j :: 0 <= j < n ==> Front(events)[j] == events[j] && Front(events)[..j] == events[..j];
    }
  }

  lemma {:induction false} ReceivedGrows(events: seq<Event>)
    ensures events != [] ==> ReceivedBy(Front(events)) <= ReceivedBy(events)
    ensures MkdirDone !in events ==> ReceivedBy(events) == 0
  {
    if events != [] {
      ReceivedGrows(Front(events));
      assert events == Front(events) + [Last(events)];
    }
  }

  /** What becomes of an upload, on the events themselves: with nothing decided before event d, the
      upload is stored by the end of the file, sent to the error handler by a failure, and answered
      with 413 by the bytes that exceed the limit; nothing that follows changes it. */
  lemma WhichOutcome(limit: nat, declared: Option<int>, events: seq<Event>, d: nat)
    requires declared.Some? ==> declared.value <= limit
    requires d < |events| && MkdirDone in events[..d] && ReceivedBy(events[..d]) <= limit
    requires forall j :: 0 <= j < d ==>
               && events[j] != MkdirFailed
               && (MkdirDone in events[..j] ==>
                     events[j] != AbortedByClient && events[j] != WriteError && events[j] != Finish)
    ensures var s := After(limit, declared, events);
            match events[d]
            case Finish => s.importZipFile && s.removals == 0 && s.replies == [Passed]
            case AbortedByClient => !s.importZipFile && s.removals == 1 && s.replies == [PassedError]
            case WriteError => !s.importZipFile && s.removals == 1 && s.replies == [PassedError]
            case MkdirFailed => !s.importZipFile && s.removals == 1 && s.replies == [PassedError]
            case Data(length) =>
              ReceivedBy(events[..d]) + length > limit ==>
                !s.importZipFile && s.removals == 1 && s.replies == if s.awaitingEnd then [] else [TooLarge]
            case _ => true
  {
    FirstDecisiveEventDecides(limit, declared, events);
    assert forall j :: 0 <= j < d ==> events[..d][j] == events[j] && events[..d][..j] == events[..j];
    UndecidedExactly(limit, events[..d]);
    DecidedAt(limit, events, d);
  }

  lemma {:induction false} DecisionStays(limit: nat, events: seq<Event>, n: nat)
    requires n <= |events| && Decided(limit, events[..n]) != Undecided
    ensures Decided(limit, events) == Decided(limit, events[..n])
  {
    if n == |events| {
      assert events[..n] == events;
    } else {
      assert Front(events)[..n] == events[..n];
      DecisionStays(limit, Front(events), n);
    }
  }

  lemma DecidedAt(limit: nat, events: seq<Event>, d: nat)
    requires d < |events| && Decided(limit, events[..d]) == Undecided
    ensures var m := Meaning(limit, MkdirDone in events[..d], ReceivedBy(events[..d]), events[d]);
            m != Undecided ==> Decided(limit, events) == m
  {
    assert Front(events[..d + 1]) == events[..d];
    if Decided(limit, events[..d + 1]) != Undecided {
      DecisionStays(limit, events, d + 1);
    }
  }

  // ---------------------------------------------------------------- the handlers on fields

  class Upload {
    const limit: nat
    const refused: bool
    var started: bool
    var settled: bool
    var received: nat
    var complete: bool
    var awaitingEnd: bool
    var importZipFile: bool
    var removals: nat
    var replies: seq<Reply>

    function Now(): State
      reads this
    {
      State(refused, started, settled, received, complete, awaitingEnd, importZipFile, removals, replies)
    }

    constructor (limit: nat, declared: Option<int>)
      ensures this.limit == limit && Now() == Arrive(limit, declared)
      ensures refused <==> declared.Some? && declared.value > limit
      ensures replies == if declared.Some? && declared.value > limit then [TooLarge] else []
      ensures !started && !settled && received == 0 && !complete && !awaitingEnd && !importZipFile && removals == 0
    {
      this.limit := limit;
      refused := declared.Some? && declared.value > limit;
      started, settled, received, complete, awaitingEnd := false, false, 0, false, false;
      importZipFile, removals := false, 0;
      replies := if declared.Some? && declared.value > limit then [TooLarge] else [];
    }

    method FailWith(overLimit: bool)
      modifies this
      ensures Now() == Fail(old(Now()), overLimit)
    {
      if settled { return; }
      settled := true;
      removals := removals + 1;
      if !overLimit {
        replies := replies + [PassedError];
        return;
      }
      if complete {
        replies := replies + [TooLarge];
      } else {
        awaitingEnd := true;
      }
    }

    method OnData(length: nat)
      requires started && !refused
      modifies this
      ensures Now() == Handle(limit, old(Now()), Data(length))
    {
      received := received + length;
      if received > limit && !settled {
        FailWith(true);
      }
    }

    method OnFinish()
      requires started && !refused
      modifies this
      ensures Now() == Handle(limit, old(Now()), Finish)
    {
      if settled { return; }
      settled := true;
      importZipFile := true;
      replies := replies + [Passed];
    }

    method OnEnd()
      requires !refused
      modifies this
      ensures Now() == Handle(limit, old(Now()), End)
    {
      complete := true;
      if awaitingEnd {
        awaitingEnd := false;
        replies := replies + [TooLarge];
      }
    }

    /** Node dispatching one event: listeners hear nothing before they are attached. */
    method Dispatch(e: Event)
      modifies this
      ensures Now() == Handle(limit, old(Now()), e)
    {
      if refused { return; }
      match e {
        case MkdirDone => started := true;
        case MkdirFailed => FailWith(false);
        case Data(length) => if started { OnData(length); }
        case Parsed => complete := true;
        case End => OnEnd();
        case AbortedByClient => if started { FailWith(false); }
        case WriteError => if started { FailWith(false); }
        case Finish => if started { OnFinish(); }
      }
    }
  }
}
