/**
 The line queue of server/src/cli/platform.ts, `createPrompter`: lines that arrive before they
 are asked for are buffered, readers that ask before a line is there wait, and closing the
 input rejects whoever still waits.

 `Queue` is the state with the record of everything that arrived and was asked; class Prompter
 runs the three callbacks on fields. The laws are about every interleaving of the callbacks.
 */
module Prompter {
  import opened Sequences

  datatype Outcome = Pending | Resolved(line: string) | Rejected

  datatype Event = Line(line: string) | Close | Read

  datatype Queue = Queue(
    buffered: seq<string>,
    waiters: seq<nat>,            // the reads, by number, that wait for a line
    closed: bool,
    lines: seq<string>,           // every line that arrived
    outcomes: seq<Outcome>,       // what became of every read, in the order asked
    served: seq<nat>,             // the reads that were not turned away, in order
    linesAtClose: nat)            // how many lines had arrived at the first close
  {
    /** How many lines have been handed out. */
    function Handed(): int {
      |served| - |waiters|
    }

    /** Lines are handed out in arrival order to the reads that were not turned away, none lost
        and none twice, and nobody waits while a line lies there or after the close. */
    ghost predicate Fair() {
      Queued() && Ascending() && Recorded()
    }

    ghost predicate Queued() {
      && (buffered == [] || waiters == [])
      && (closed ==> waiters == [] && linesAtClose <= |lines|)
      && |waiters| <= |served| && |buffered| <= |lines|
      && Handed() == |lines| - |buffered|
      && served[Handed()..] == waiters
      && lines[Handed()..] == buffered
    }

    ghost predicate Recorded()
      requires Handed() <= |lines|
    {
      && (forall j :: 0 <= j < |served| ==>
            && served[j] < |outcomes|
            && outcomes[served[j]] == if j < Handed() then Resolved(lines[j]) else Pending)
      && (forall i :: 0 <= i < |outcomes| && i !in served ==> outcomes[i] == Rejected)
    }

    ghost predicate Ascending() {
      forall j, k :: 0 <= j < k < |served| ==> served[j] < served[k]
    }

    /** Before the close nobody is turned away. After it, as long as no further line came, the
        reads that were turned away are the last ones, and all lines had been handed out. */
    ghost predicate OnTime() {
      && (!closed ==> |served| == |outcomes|)
      && (!closed || linesAtClose == |lines| ==>
            && (forall j :: 0 <= j < |served| ==> served[j] == j)
            && (|served| < |outcomes| ==> |served| == |lines|))
    }
  }

  const EMPTY := Queue([], [], false, [], [], [], 0)

  /** The reads in `waiting` are rejected. */
  function Turned(outcomes: seq<Outcome>, waiting: seq<nat>): (r: seq<Outcome>)
    ensures |r| == |outcomes|
    ensures forall i :: 0 <= i < |outcomes| ==> r[i] == if i in waiting then Rejected else outcomes[i]
  {
    seq(|outcomes|, i requires 0 <= i < |outcomes| => if i in waiting then Rejected else outcomes[i])
  }

  lemma TurnedNone(outcomes: seq<Outcome>)
    ensures Turned(outcomes, []) == outcomes
  {
  }

  lemma TurnedNext(outcomes: seq<Outcome>, waiting: seq<nat>, w: nat)
    requires w < |outcomes|
    ensures Turned(outcomes, waiting)[w := Rejected] == Turned(outcomes, waiting + [w])
  {
  }

  function Handle(q: Queue, e: Event): Queue {
    match e
    case Line(line) =>
      if q.waiters != [] && q.waiters[0] < |q.outcomes| then
        q.(lines := q.lines + [line], waiters := q.waiters[1..],
           outcomes := q.outcomes[q.waiters[0] := Resolved(line)])
      else q.(lines := q.lines + [line], buffered := q.buffered + [line])
    case Close =>
      q.(closed := true, waiters := [], outcomes := Turned(q.outcomes, q.waiters),
         served := if |q.waiters| <= |q.served| then q.served[..q.Handed()] else q.served,
         linesAtClose := if q.closed then q.linesAtClose else |q.lines|)
    case Read =>
      var read := |q.outcomes|;
      if q.buffered != [] then
        q.(buffered := q.buffered[1..], outcomes := q.outcomes + [Resolved(q.buffered[0])], served := q.served + [read])
      else if q.closed then q.(outcomes := q.outcomes + [Rejected])
      else q.(outcomes := q.outcomes + [Pending], served := q.served + [read], waiters := q.waiters + [read])
  }

  lemma LineKeeps(q: Queue, line: string)
    requires q.Fair() && q.OnTime()
    ensures Handle(q, Line(line)).Fair() && Handle(q, Line(line)).OnTime()
  {
    if q.waiters != [] {
      assert q.waiters[0] == q.served[q.Handed()];
    }
  }

  lemma HandedDoNotWait(q: Queue)
    requires q.Queued() && q.Ascending()
    ensures forall j :: 0 <= j < q.Handed() ==> q.served[j] !in q.waiters
    ensures forall i :: i in q.served <==> i in q.served[..q.Handed()] || i in q.waiters
  {
    var h := q.Handed();
    forall j | 0 <= j < h ensures q.served[j] !in q.waiters {
      forall k | 0 <= k < |q.waiters| ensures q.waiters[k] != q.served[j] {
        assert q.waiters[k] == q.served[h..][k] == q.served[h + k];
      }
    }
    assert q.served == q.served[..h] + q.waiters;
  }

  lemma CloseKeepsRecord(q: Queue)
    requires q.Fair()
    ensures Handle(q, Close).Queued() && Handle(q, Close).Ascending() && Handle(q, Close).Recorded()
  {
    hide Turned;
    var q', h := Handle(q, Close), q.Handed();
    HandedDoNotWait(q);
    assert q'.served == q.served[..h] && q'.Handed() == h;
    forall i | 0 <= i < |q'.outcomes| && i !in q'.served ensures q'.outcomes[i] == Rejected {
      assert i in q.waiters || i !in q.served;
    }
  }

  lemma CloseKeeps(q: Queue)
    requires q.Fair() && q.OnTime()
    ensures Handle(q, Close).Fair() && Handle(q, Close).OnTime()
  {
    hide Turned;
    CloseKeepsRecord(q);
  }

  lemma ReadKeepsRecord(q: Queue)
    requires q.Fair()
    ensures Handle(q, Read).Queued() && Handle(q, Read).Ascending() && Handle(q, Read).Recorded()
  {
    var q', read := Handle(q, Read), |q.outcomes|;
    if q.buffered != [] || !q.closed {
      assert q'.served[|q.served|] == read;
      assert forall i :: i in q'.served <==> i in q.served || i == read;
    }
  }

  lemma ReadKeeps(q: Queue)
    requires q.Fair() && q.OnTime()
    ensures Handle(q, Read).Fair() && Handle(q, Read).OnTime()
  {
    ReadKeepsRecord(q);
    var q' := Handle(q, Read);
    if q.buffered != [] {
      if (!q.closed || q.linesAtClose == |q.lines|) && q.served != [] {
        assert q.served[|q.served| - 1] == |q.served| - 1 < |q.outcomes|;
      }
      assert !q.closed || q.linesAtClose == |q.lines| ==> |q.served| == |q.outcomes|;
    } else if q.closed {
      assert q'.served == q.served && |q.served| == |q.lines|;
    }
  }

  function After(events: seq<Event>): Queue {
    if events == [] then EMPTY else Handle(After(Front(events)), Last(events))
  }

  /** Every interleaving is fair: FIFO, no line lost or handed out twice, never a waiting reader
      beside a buffered line. */
  lemma {:induction false} AlwaysFair(events: seq<Event>)
    ensures After(events).Fair() && After(events).OnTime()
  {
    if events != [] {
      var q, e := After(Front(events)), Last(events);
      AlwaysFair(Front(events));
      match e
      case Line(line) => LineKeeps(q, line);
      case Close => CloseKeeps(q);
      case Read => ReadKeeps(q);
    }
  }

  function LinesOf(events: seq<Event>): seq<string> {
    if events == [] then []
    else LinesOf(Front(events)) +
         (if Last(events).Line? then [Last(events).line] else [])
  }

  function ReadsIn(events: seq<Event>): nat {
    if events == [] then 0
    else ReadsIn(Front(events)) + (if Last(events).Read? then 1 else 0)
  }

  lemma HandleRecords(q: Queue, e: Event)
    ensures var q' := Handle(q, e);
            && q'.lines == q.lines + (if e.Line? then [e.line] else [])
            && |q'.outcomes| == |q.outcomes| + (if e.Read? then 1 else 0)
            && (q'.closed <==> q.closed || e.Close?)
  {
  }

  lemma {:induction false} WhatHappened(events: seq<Event>)
    ensures After(events).lines == LinesOf(events) && |After(events).outcomes| == ReadsIn(events)
    ensures After(events).closed <==> Close in events
  {
    hide Handle;
    if events != [] {
      var earlier, e := Front(events), Last(events);
      WhatHappened(earlier);
      HandleRecords(After(earlier), e);
      assert events == earlier + [e];
    }
  }

  /** No line after the first close. */
  ghost predicate NoLateLine(events: seq<Event>) {
    forall i, j :: 0 <= i < j < |events| && events[i].Close? ==> !events[j].Line?
  }

  lemma {:induction false} LinesStopAtClose(events: seq<Event>)
    requires NoLateLine(events) && Close in events
    ensures After(events).linesAtClose == |LinesOf(events)|
  {
    var n := |events| - 1;
    WhatHappened(events[..n]);
    if Close in events[..n] {
      var i :| 0 <= i < n && events[..n][i] == Close;
      assert events[i].Close? && !events[n].Line?;
      LinesStopAtClose(events[..n]);
    } else {
      assert events == events[..n] + [events[n]];
    }
  }

  /** With no line after the close, the i-th read gets the i-th line, and exactly the reads beyond
      the lines are rejected, those asked after the close included: the interleaving of reads and
      lines makes no difference. */
  lemma ReadsGetTheirLines(events: seq<Event>, i: nat)
    requires NoLateLine(events) && i < ReadsIn(events)
    ensures |After(events).outcomes| == ReadsIn(events)
    ensures After(events).outcomes[i] ==
            if i < |LinesOf(events)| then Resolved(LinesOf(events)[i])
            else if Close in events then Rejected
            else Pending
  {
    var q := After(events);
    AlwaysFair(events);
    WhatHappened(events);
    if Close in events {
      LinesStopAtClose(events);
    }
    if i < |q.served| {
      assert q.served[i] == i;
    } else {
      assert i !in q.served;
    }
  }

  lemma {:induction false} LinesAt(events: seq<Event>) returns (at: seq<nat>)
    ensures Ascending(at) && |at| == |LinesOf(events)|
    ensures forall i: nat :: i in at <==> i < |events| && events[i].Line?
    ensures forall j :: 0 <= j < |at| ==> at[j] < |events| && events[at[j]] == Line(LinesOf(events)[j])
  {
    hide Ascending;
    at := [];
    if events == [] {
      NothingAscends();
    } else {
      var n := |events| - 1;
      var before := LinesAt(Front(events));
      assert LinesOf(events) == LinesOf(Front(events)) + (if events[n].Line? then [events[n].line] else []);
      hide LinesOf;
      AscendingNext(before, n);
      at := if events[n].Line? then before + [n] else before;
      forall i: nat ensures i in at <==> i < |events| && events[i].Line? {
        if i < n {
          assert Front(events)[i] == events[i];
        }
      }
      forall j | 0 <= j < |at| ensures at[j] < |events| && events[at[j]] == Line(LinesOf(events)[j]) {
        if j < |before| {
          assert Front(events)[before[j]] == events[before[j]];
        }
      }
    }
  }

  lemma {:induction false} ReadsAt(events: seq<Event>) returns (at: seq<nat>)
    ensures Ascending(at) && |at| == ReadsIn(events)
    ensures forall i: nat :: i in at <==> i < |events| && events[i].Read?
  {
    hide Ascending;
    at := [];
    if events == [] {
      NothingAscends();
    } else {
      var n := |events| - 1;
      var before := ReadsAt(Front(events));
      assert ReadsIn(events) == ReadsIn(Front(events)) + (if events[n].Read? then 1 else 0);
      hide ReadsIn;
      AscendingNext(before, n);
      at := if events[n].Read? then before + [n] else before;
      forall i: nat ensures i in at <==> i < |events| && events[i].Read? {
        if i < n {
          assert Front(events)[i] == events[i];
        }
      }
    }
  }

  /** The same law on the events themselves: with the lines and the reads listed in the order in
      which they happened and no line after a close, read i gets line i; the reads beyond the lines
      are rejected if the input was closed, and wait if it was not. */
  lemma NthReadGetsNthLine(events: seq<Event>, lines: seq<nat>, asked: seq<nat>, i: nat)
    requires Ascending(lines) && forall k: nat :: k in lines <==> k < |events| && events[k].Line?
    requires Ascending(asked) && forall k: nat :: k in asked <==> k < |events| && events[k].Read?
    requires forall a, b :: 0 <= a < b < |events| && events[a].Close? ==> !events[b].Line?
    requires i < |asked|
    ensures |After(events).outcomes| == |asked|
    ensures i < |lines| ==>
              lines[i] < |events| && events[lines[i]].Line?
              && After(events).outcomes[i] == Resolved(events[lines[i]].line)
    ensures i >= |lines| ==> After(events).outcomes[i] == if Close in events then Rejected else Pending
  {
    hide LinesOf;
    hide ReadsIn;
    hide After;
    hide Ascending;
    var linesAt := LinesAt(events);
    var readsAt := ReadsAt(events);
    OneListing(linesAt, lines);
    OneListing(readsAt, asked);
    ReadsGetTheirLines(events, i);
  }

  // ---------------------------------------------------------------- the callbacks on fields

  class Prompter {
    var buffered: seq<string>
    var waiters: seq<nat>
    var closed: bool
    var settled: seq<Outcome>             // the promises handed out so far
    ghost var lines: seq<string>
    ghost var served: seq<nat>
    ghost var linesAtClose: nat

    ghost function Now(): Queue
      reads this
    {
      Queue(buffered, waiters, closed, lines, settled, served, linesAtClose)
    }

    ghost predicate Valid()
      reads this
    {
      Now().Fair() && Now().OnTime()
    }

    constructor ()
      ensures Valid() && Now() == EMPTY
    {
      buffered, waiters, closed, settled := [], [], false, [];
      lines, served, linesAtClose := [], [], 0;
    }

    /** rl.on('line'). */
    method OnLine(line: string)
      requires Valid()
      modifies this
      ensures Valid() && Now() == Handle(old(Now()), Line(line))
    {
      LineKeeps(Now(), line);
      lines := lines + [line];
      if waiters != [] {
        var waiter := waiters[0];
        assert waiter == served[Now().Handed()];
        waiters := waiters[1..];
        settled := settled[waiter := Resolved(line)];
      } else {
        buffered := buffered + [line];
      }
    }

    /** The loop of rl.on('close'). */
    method RejectWaiters()
      requires forall k :: 0 <= k < |waiters| ==> waiters[k] < |settled|
      modifies `waiters, `settled
      ensures waiters == [] && settled == Turned(old(settled), old(waiters))
    {
      hide Turned;
      TurnedNone(settled);
      ghost var k := 0;
      while waiters != []
        modifies `waiters, `settled
        invariant k <= |old(waiters)| && waiters == old(waiters)[k..]
        invariant settled == Turned(old(settled), old(waiters)[..k])
        decreases |waiters|
      {
        var waiter := waiters[0];
        assert old(waiters)[..k + 1] == old(waiters)[..k] + [waiter];
        TurnedNext(old(settled), old(waiters)[..k], waiter);
        waiters := waiters[1..];
        settled := settled[waiter := Rejected];
        k := k + 1;
      }
      assert old(waiters)[..k] == old(waiters);
    }

    /** rl.on('close'). */
    method OnClose()
      requires Valid()
      modifies this
      ensures Valid() && Now() == Handle(old(Now()), Close)
    {
      CloseKeeps(Now());
      forall k | 0 <= k < |waiters| ensures waiters[k] < |settled| {
        assert waiters[k] == served[Now().Handed()..][k];
      }
      if !closed {
        linesAtClose := |lines|;
      }
      closed := true;
      served := served[..Now().Handed()];
      RejectWaiters();
    }

    /** nextLine: the number of the read, whose promise is settled[read]. */
    method NextLine() returns (read: nat)
      requires Valid()
      modifies this
      ensures Valid() && Now() == Handle(old(Now()), Read) && read == |old(settled)|
    {
      ReadKeeps(Now());
      read := |settled|;
      if buffered != [] {
        var line := buffered[0];
        buffered := buffered[1..];
        settled := settled + [Resolved(line)];
        served := served + [read];
        return;
      }
      if closed {
        settled := settled + [Rejected];
        return;
      }
      settled := settled + [Pending];
      served := served + [read];
      waiters := waiters + [read];
    }
  }
}
