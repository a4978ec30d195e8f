/**
 The order book worker of direct-queue mode as a whole: the queue protocol, the decoder and the
 engine's pipeline together. The worker handles a batch before its next look at the queue; the
 engine is its own, so handling is one step with the release of the batch.
 */
module EngineSessions {
  import opened Orders
  import opened BookRuns
  import opened ProtocolParser
  import opened OrderBookEngine
  import opened Shutdown

  /** The clock reading for each packet the worker handles. */
  type Clock = nat -> nat

  datatype Session = Session(sys: System<string>, engine: Engine)

  /** Packets, decoded; the first one is number `from` of those the worker handles. */
  ghost function Decode(proto: Protocol, packets: seq<string>, clock: Clock, from: nat): (stream: seq<Submission>)
    ensures |stream| == |packets|
    ensures forall i :: 0 <= i < |packets| ==> stream[i] == Submission(Parse(proto, packets[i]), clock(from + i))
  {
    seq(|packets|, i requires 0 <= i < |packets| => Submission(Parse(proto, packets[i]), clock(from + i)))
  }

  /** The packets an event lets the worker take. */
  ghost function Taken(s: System<string>, e: Event): seq<string> {
    var before, after := s.q.h.popped, Happen(s, e).q.h.popped;
    if |before| <= |after| then after[|before|..] else []
  }

  ghost function Act(ss: Session, e: Event, proto: Protocol, clock: Clock): (ss': Session)
    requires Windowed(ss.engine)
    ensures Windowed(ss'.engine)
  {
    Session(Happen(ss.sys, e),
            HandleAll(ss.engine, Decode(proto, Taken(ss.sys, e), clock, |ss.sys.q.h.popped|)))
  }

  ghost function RunSession(s: System<string>, events: seq<Event>, proto: Protocol, clock: Clock): (ss: Session)
    ensures Windowed(ss.engine)
  {
    if events == [] then Session(s, INITIAL)
    else Act(RunSession(s, events[..|events| - 1], proto, clock), events[|events| - 1], proto, clock)
  }

  /** An event adds to what has been taken, and never takes anything back. */
  lemma TakenExtends(s: System<string>, e: Event)
    ensures s.q.h.popped <= Happen(s, e).q.h.popped
    ensures Happen(s, e).q.h.popped == s.q.h.popped + Taken(s, e)
  {
  }

  lemma DecodeAppend(proto: Protocol, a: seq<string>, b: seq<string>, clock: Clock)
    ensures Decode(proto, a, clock, 0) + Decode(proto, b, clock, |a|) == Decode(proto, a + b, clock, 0)
  {
    hide Parse;
    var x, y := Decode(proto, a, clock, 0) + Decode(proto, b, clock, |a|), Decode(proto, a + b, clock, 0);
    forall i | 0 <= i < |y|
      ensures x[i] == y[i]
    {
      assert (a + b)[i] == if i < |a| then a[i] else b[i - |a|];
    }
  }

  /**
   At every moment of every interleaving the engine is in the state of having handled exactly the
   packets taken so far, decoded, one after another.
   */
  lemma {:induction false} EngineFollowsQueue(s: System<string>, events: seq<Event>, proto: Protocol, clock: Clock)
    ensures var ss := RunSession(s, events, proto, clock);
      && ss.sys == RunAll(s, events)
      && (Start(s) ==> ss.engine == HandleAll(INITIAL, Decode(proto, ss.sys.q.h.popped, clock, 0)))
  {
    hide Happen, HandleAll, Decode, Taken;
    if events == [] {
      NothingHandled(s, proto, clock);
    } else {
      var n := |events| - 1;
      EngineFollowsQueue(s, events[..n], proto, clock);
      var ss, e := RunSession(s, events[..n], proto, clock), events[n];
      var popped, batch := ss.sys.q.h.popped, Taken(ss.sys, e);
      TakenExtends(ss.sys, e);
      BatchesJoin(INITIAL, Decode(proto, popped, clock, 0), Decode(proto, batch, clock, |popped|));
      DecodeAppend(proto, popped, batch, clock);
    }
  }

  lemma NothingHandled(s: System<string>, proto: Protocol, clock: Clock)
    ensures Start(s) ==> INITIAL == HandleAll(INITIAL, Decode(proto, s.q.h.popped, clock, 0))
  {
  }

  lemma DecodeIsDecoded(proto: Protocol, packets: seq<string>, clock: Clock)
    ensures Decoded(Decode(proto, packets, clock, 0))
  {
    hide Parse;
    forall i | 0 <= i < |packets|
      ensures FitsInt32(Decode(proto, packets, clock, 0)[i].order.quantity)
    {
      ParsedQuantityFits(proto, packets[i]);
    }
  }

  /** From bytes to book: whatever the file holds, in every protocol and at every moment of every interleaving. */
  lemma BookIsAlwaysSound(s: System<string>, events: seq<Event>, proto: Protocol, clock: Clock)
    requires Start(s)
    ensures SoundBook(RunSession(s, events, proto, clock).engine.book)
  {
    hide RunSession, Decode, SoundBook, RunEngine, HandleAll;
    EngineFollowsQueue(s, events, proto, clock);
    var stream := Decode(proto, RunSession(s, events, proto, clock).sys.q.h.popped, clock, 0);
    DecodeIsDecoded(proto, RunSession(s, events, proto, clock).sys.q.h.popped, clock);
    RunIsHandleAll(stream);
    EngineBookIsSound(stream);
  }

  /** The worker has exited and its engine has handled the whole file, in order and once. */
  ghost predicate FileHandled(ss: Session, msgs: seq<string>, proto: Protocol, clock: Clock) {
    ss.sys.worker == Exited && ss.engine == HandleAll(INITIAL, Decode(proto, msgs, clock, 0))
  }

  /** In every interleaving, an exit means that the file has been handled. */
  lemma ExitsWithFileHandled(s: System<string>, events: seq<Event>, proto: Protocol, clock: Clock)
    requires Start(s)
    ensures var ss := RunSession(s, events, proto, clock);
      ss.sys.worker == Exited ==> FileHandled(ss, s.msgs, proto, clock)
  {
    hide RunSession, RunAll, Decode, HandleAll;
    EngineFollowsQueue(s, events, proto, clock);
    ExitsOnlyWhenDrained(s, events);
  }

  /** And every fair run gets there: the final book depends on the file and the clock, never on the interleaving. */
  lemma FairSessionsAgree(s: System<string>, sched: nat -> Event, proto: Protocol, clock: Clock)
    requires Start(s) && Fair(sched)
    ensures exists n: nat :: FileHandled(RunSession(s, Prefix(sched, n), proto, clock), s.msgs, proto, clock)
  {
    hide RunSession, RunAll, FileHandled, Start, Fair, At;
    EveryFairRunFinishes(s, [], sched);
    NoEvents(s);
    var n: nat :| At(s, sched, n).worker == Exited;
    AtIsRun(s, sched, n);
    EngineFollowsQueue(s, Prefix(sched, n), proto, clock);
    ExitsWithFileHandled(s, Prefix(sched, n), proto, clock);
  }
}
