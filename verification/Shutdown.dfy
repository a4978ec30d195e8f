/**
 Direct-queue mode: the producer thread pushes the loaded messages, the launcher joins it and
 raises the consumer-done flag, and the order book worker drains the queue and exits. The run
 flag stays up and the receiver thread pushes nothing; it may only raise the consumer-done
 flag itself, after seeing the producer-done flag.
 */
module Shutdown {
  import opened SpscProtocol

  const BATCH: nat := 32

  /** The worker's loop: pop a batch; if it is empty, test the flag, then the two indices. */
  datatype Worker = Looping | Popping(before: nat) | TestFlag | LoadRead | LoadWrite(read: nat) | Exited

  datatype System<T> = System(
    q: State<T>, msgs: seq<T>, next: nat, producerDone: bool, consumerDone: bool, worker: Worker)

  datatype Event = ProducerActs | ProducerFinishes | ConsumerFlagRaised | WorkerActs

  /** The producer thread: start a push of the next message, or advance the push under way; a full queue means retry. */
  ghost function ProducerActs<T>(s: System<T>): System<T> {
    if s.q.prod.PIdle? then
      if s.next < |s.msgs| && !s.producerDone then s.(q := Step(s.q, BeginPush([s.msgs[s.next]]))) else s
    else
      var q := Step(s.q, ProducerStep);
      var delivered := q.prod.PIdle? && |q.h.pushed| > |s.q.h.pushed|;
      s.(q := q, next := if delivered then s.next + 1 else s.next)
  }

  ghost function WorkerActs<T>(s: System<T>): System<T> {
    match s.worker
    case Looping => s.(q := Step(s.q, BeginPop(BATCH)), worker := Popping(|s.q.h.popped|))
    case Popping(before) =>
      if s.q.cons.CIdle? then s
      else
        var q := Step(s.q, ConsumerStep);
        if !q.cons.CIdle? then s.(q := q)
        else s.(q := q, worker := if |q.h.popped| == before then TestFlag else Looping)
    case TestFlag => s.(worker := if s.consumerDone then LoadRead else Looping)
    case LoadRead => s.(worker := LoadWrite(s.q.m.readPos))
    case LoadWrite(read) => s.(worker := if read == s.q.m.writePos then Exited else Looping)
    case Exited => s
  }

  ghost function Happen<T>(s: System<T>, e: Event): System<T> {
    match e
    case ProducerActs => ProducerActs(s)
    case ProducerFinishes =>
      if s.next == |s.msgs| && s.q.prod.PIdle? then s.(producerDone := true) else s
    case ConsumerFlagRaised => if s.producerDone then s.(consumerDone := true) else s
    case WorkerActs => WorkerActs(s)
  }

  ghost function RunAll<T>(s: System<T>, events: seq<Event>): System<T> {
    if events == [] then s else Happen(RunAll(s, events[..|events| - 1]), events[|events| - 1])
  }

  ghost predicate Start<T>(s: System<T>) {
    Init(s.q) && s.next == 0 && !s.producerDone && !s.consumerDone && s.worker == Looping
  }

  // ----- The invariant -----

  ghost predicate ProducerSide<T>(s: System<T>) {
    && s.next <= |s.msgs|
    && s.q.h.pushed == s.msgs[..s.next]
    && (s.q.prod.PRefresh? || s.q.prod.PCopy? ==> s.next < |s.msgs| && s.q.prod.items == [s.msgs[s.next]])
    && (s.producerDone ==> s.next == |s.msgs|)
    && (s.consumerDone ==> s.producerDone)
  }

  ghost predicate WorkerSide<T>(s: System<T>) {
    match s.worker
    case Looping => s.q.cons.CIdle?
    case Popping(before) =>
      && !s.q.cons.CIdle? && before == |s.q.h.popped|
      && (s.q.cons.CRefresh? ==> s.q.cons.max == BATCH)
      && (s.q.cons.CCopy? ==> s.q.cons.k > 0)
    case TestFlag => s.q.cons.CIdle?
    case LoadRead => s.q.cons.CIdle? && s.consumerDone
    case LoadWrite(read) => s.q.cons.CIdle? && s.consumerDone && read == s.q.m.readPos
    case Exited => s.q.cons.CIdle? && s.consumerDone && s.q.h.popped == s.msgs
  }

  ghost predicate SysInv<T>(s: System<T>) {
    Inv(s.q) && ProducerSide(s) && WorkerSide(s)
  }

  lemma ProducerKeeps<T>(s: System<T>)
    requires SysInv(s)
    ensures SysInv(ProducerActs(s))
  {
    if s.q.prod.PIdle? {
      if s.next < |s.msgs| && !s.producerDone {
        StepInv(s.q, BeginPush([s.msgs[s.next]]));
      }
    } else {
      StepInv(s.q, ProducerStep);
      assert s.msgs[..s.next] + [s.msgs[s.next]] == s.msgs[..s.next + 1];
      assert [s.msgs[s.next]][..0] == [] && [s.msgs[s.next]][..1] == [s.msgs[s.next]];
    }
  }

  /** When nothing is left to push and the indices agree, every message has been taken. */
  lemma DrainedMeansAll<T>(s: System<T>)
    requires Inv(s.q) && ProducerSide(s) && s.producerDone && s.q.m.readPos == s.q.m.writePos
    ensures s.q.h.popped == s.msgs
  {
    AvailableIsDifference(|s.q.m.buf|, |s.q.h.popped|, |s.q.h.pushed|);
    assert s.msgs[..|s.msgs|] == s.msgs;
    assert s.q.h.pushed[..|s.q.h.pushed|] == s.q.h.pushed;
  }

  lemma BeginKeeps<T>(s: System<T>)
    requires SysInv(s) && s.worker == Looping
    ensures SysInv(WorkerActs(s))
  {
    hide Inv;
    StepInv(s.q, BeginPop(BATCH));
    AvailableOf(s.q);
  }

  lemma PoppingKeeps<T>(s: System<T>)
    requires SysInv(s) && s.worker.Popping?
    ensures SysInv(WorkerActs(s))
  {
    hide Inv;
    StepInv(s.q, ConsumerStep);
    AvailableOf(s.q);
  }

  /** What the consumer finds available, by its cached and by the current write index. */
  lemma AvailableOf<T>(q: State<T>)
    requires Inv(q)
    ensures var cap := |q.m.buf|;
      && Available(cap, q.m.readPos, q.m.cachedWrite) == q.h.cachedWrite - |q.h.popped| >= 0
      && Available(cap, q.m.readPos, q.m.writePos) == |q.h.pushed| - |q.h.popped| >= 0
      && (q.m.readPos == q.m.cachedWrite <==> |q.h.popped| == q.h.cachedWrite)
      && (q.m.readPos == q.m.writePos <==> |q.h.popped| == |q.h.pushed|)
      && cap > 1
  {
    AvailableIsDifference(|q.m.buf|, |q.h.popped|, q.h.cachedWrite);
    AvailableIsDifference(|q.m.buf|, |q.h.popped|, |q.h.pushed|);
  }

  lemma WorkerKeeps<T>(s: System<T>)
    requires SysInv(s)
    ensures SysInv(WorkerActs(s))
  {
    match s.worker
    case Looping => BeginKeeps(s);
    case Popping(before) => PoppingKeeps(s);
    case LoadWrite(read) =>
      if read == s.q.m.writePos {
        DrainedMeansAll(s);
      }
    case _ =>
  }

  lemma HappenKeeps<T>(s: System<T>, e: Event)
    requires SysInv(s)
    ensures SysInv(Happen(s, e))
  {
    match e
    case ProducerActs => ProducerKeeps(s);
    case WorkerActs => WorkerKeeps(s);
    case _ =>
  }

  lemma {:induction false} RunKeeps<T>(s: System<T>, events: seq<Event>)
    requires Start(s)
    ensures SysInv(RunAll(s, events)) && RunAll(s, events).msgs == s.msgs
  {
    if events == [] {
      InitInv(s.q);
    } else {
      RunKeeps(s, events[..|events| - 1]);
      HappenKeeps(RunAll(s, events[..|events| - 1]), events[|events| - 1]);
    }
  }

  /** The worker exits only after taking exactly the loaded messages, once each and in file order. */
  lemma ExitsOnlyWhenDrained<T>(s: System<T>, events: seq<Event>)
    requires Start(s)
    ensures RunAll(s, events).worker == Exited ==> RunAll(s, events).q.h.popped == s.msgs
  {
    RunKeeps(s, events);
  }

  /** At every moment of every run, what the worker has taken is a prefix of the loaded messages. */
  lemma TakesInOrder<T>(s: System<T>, events: seq<Event>)
    requires Start(s)
    ensures RunAll(s, events).q.h.popped <= s.msgs
  {
    RunKeeps(s, events);
  }

  // ----- Every fair run finishes -----

  ghost predicate Drained<T>(s: System<T>) {
    |s.q.h.popped| == |s.q.h.pushed|
  }

  /** Messages not yet taken, messages not yet pushed, flags not yet raised: no event lets any of them grow. */
  ghost function Untaken<T>(s: System<T>): int {
    |s.msgs| - |s.q.h.popped|
  }

  ghost function Unpushed<T>(s: System<T>): int {
    |s.msgs| - s.next
  }

  ghost function FlagsDown<T>(s: System<T>): nat {
    (if s.producerDone then 0 else 1) + (if s.consumerDone then 0 else 1)
  }

  /** Steps the worker needs until it releases a batch, while there are items in the queue. */
  ghost function TakePhase<T>(s: System<T>): nat {
    var big := |s.q.m.buf| + BATCH;
    match s.worker
    case Exited => 0
    case TestFlag => big + 5
    case LoadRead => big + 4
    case LoadWrite(read) => big + 3
    case Looping => big + 2
    case Popping(before) =>
      (match s.q.cons
       case CIdle => 0
       case CRefresh(max) => big + 1
       case CCopy(k, out) => if |out| <= k then k - |out| else 0)
  }

  /** Steps the producer needs until it publishes a message, while the queue is empty. */
  ghost function PushPhase<T>(s: System<T>): nat {
    match s.q.prod
    case PCopy(items, k, done) => if k == 0 then 5 else if done < k then 2 else 1
    case PIdle => 4
    case PRefresh(items) => 3
  }

  /** Steps the worker needs until it exits, once everything is pushed, taken and flagged. */
  ghost function ExitPhase<T>(s: System<T>): nat {
    match s.worker
    case Exited => 0
    case LoadWrite(read) => 1
    case LoadRead => 2
    case TestFlag => 3
    case Popping(before) => 4
    case Looping => 5
  }

  /** The event that brings the run forward. */
  ghost function Helpful<T>(s: System<T>): Event {
    if !Drained(s) then Event.WorkerActs
    else if s.next < |s.msgs| then Event.ProducerActs
    else if !s.producerDone then ProducerFinishes
    else if !s.consumerDone then ConsumerFlagRaised
    else Event.WorkerActs
  }

  ghost function Phase<T>(s: System<T>): nat {
    if !Drained(s) then TakePhase(s)
    else if s.next < |s.msgs| then PushPhase(s)
    else if FlagsDown(s) > 0 then 0
    else ExitPhase(s)
  }

  ghost predicate SameCounts<T>(t: System<T>, s: System<T>) {
    Untaken(t) == Untaken(s) && Unpushed(t) == Unpushed(s) && FlagsDown(t) == FlagsDown(s)
  }

  ghost predicate Smaller<T>(t: System<T>, s: System<T>) {
    || Untaken(t) < Untaken(s)
    || (Untaken(t) == Untaken(s) && Unpushed(t) < Unpushed(s))
    || (Untaken(t) == Untaken(s) && Unpushed(t) == Unpushed(s) && FlagsDown(t) < FlagsDown(s))
    || (SameCounts(t, s) && Phase(t) < Phase(s))
  }

  /** Nothing that matters for progress has changed. */
  ghost predicate Waits<T>(t: System<T>, s: System<T>) {
    SameCounts(t, s) && Phase(t) == Phase(s) && Helpful(t) == Helpful(s)
  }

  /** The worker's step while there are items: it gets closer to releasing a batch. */
  lemma WorkerTakes<T>(s: System<T>)
    requires SysInv(s) && s.worker != Exited && !Drained(s)
    ensures Smaller(WorkerActs(s), s)
  {
    AvailableOf(s.q);
  }

  /** The worker's step on an empty queue: it takes nothing, and exits only when all is done. */
  lemma WorkerIdles<T>(s: System<T>)
    requires SysInv(s) && s.worker != Exited && Drained(s)
    ensures var t := WorkerActs(s);
      SameCounts(t, s) && Drained(t) && t.next == s.next && t.msgs == s.msgs && t.q.prod == s.q.prod
      && t.producerDone == s.producerDone && t.consumerDone == s.consumerDone
      && (s.consumerDone ==> ExitPhase(t) < ExitPhase(s))
  {
    AvailableOf(s.q);
  }

  /** The producer's step: into an empty queue it gets closer to publishing; otherwise it does not disturb the worker. */
  lemma ProducerPushes<T>(s: System<T>)
    requires SysInv(s)
    ensures var t := ProducerActs(s);
      Smaller(t, s) || (Waits(t, s) && (Drained(s) ==> s.next == |s.msgs|))
  {
    var q := s.q;
    FreeIsDifference(|q.m.buf|, |q.h.popped|, |q.h.pushed|);
    FreeIsDifference(|q.m.buf|, q.h.cachedRead, |q.h.pushed|);
  }

  /** Every event brings the run forward or leaves it waiting for the same helpful event, which does bring it forward. */
  lemma Progress<T>(s: System<T>, e: Event)
    requires SysInv(s) && s.worker != Exited
    ensures Smaller(Happen(s, e), s) || (Waits(Happen(s, e), s) && e != Helpful(s))
  {
    match e
    case WorkerActs =>
      if Drained(s) {
        hide WorkerActs, SysInv;
        WorkerIdles(s);
      } else {
        hide WorkerActs, SysInv, Smaller;
        WorkerTakes(s);
      }
    case ProducerActs =>
      hide ProducerActs, Smaller, Waits, SysInv;
      ProducerPushes(s);
    case ProducerFinishes =>
    case ConsumerFlagRaised =>
  }

  // ----- Schedules -----

  /** The system after `n` events of a schedule. */
  ghost function At<T>(s: System<T>, sched: nat -> Event, n: nat): System<T> {
    if n == 0 then s else Happen(At(s, sched, n - 1), sched(n - 1))
  }

  ghost function Prefix(sched: nat -> Event, n: nat): seq<Event> {
    seq(n, i requires 0 <= i < n => sched(i))
  }

  lemma {:induction false} AtIsRun<T>(s: System<T>, sched: nat -> Event, n: nat)
    ensures At(s, sched, n) == RunAll(s, Prefix(sched, n))
  {
    hide Happen;
    if n > 0 {
      AtIsRun(s, sched, n - 1);
      assert Prefix(sched, n)[..n - 1] == Prefix(sched, n - 1);
    }
  }

  lemma NoEvents<T>(s: System<T>)
    ensures RunAll(s, []) == s
  {
  }

  /** No kind of event is put off for ever. */
  ghost predicate Fair(sched: nat -> Event) {
    forall e: Event, n: nat :: Comes(sched, e, n)
  }

  ghost predicate Comes(sched: nat -> Event, e: Event, n: nat) {
    exists m :: n <= m && sched(m) == e
  }

  /** Taking turns is fair. */
  lemma TurnsAreFair()
    ensures Fair(n => if n % 4 == 0 then Event.ProducerActs else if n % 4 == 1 then ProducerFinishes
                      else if n % 4 == 2 then ConsumerFlagRaised else Event.WorkerActs)
  {
    var sched: nat -> Event := n => if n % 4 == 0 then Event.ProducerActs else if n % 4 == 1 then ProducerFinishes
                                    else if n % 4 == 2 then ConsumerFlagRaised else Event.WorkerActs;
    forall e: Event, n: nat
      ensures Comes(sched, e, n)
    {
      var turn := match e case ProducerActs => 0 case ProducerFinishes => 1 case ConsumerFlagRaised => 2 case WorkerActs => 3;
      assert sched(4 * n + turn) == e;
    }
  }

  lemma {:induction false} AtKeeps<T>(s: System<T>, sched: nat -> Event, n: nat)
    requires SysInv(s)
    ensures SysInv(At(s, sched, n)) && At(s, sched, n).msgs == s.msgs
  {
    if n > 0 {
      AtKeeps(s, sched, n - 1);
      HappenKeeps(At(s, sched, n - 1), sched(n - 1));
    }
  }

  /** A waiting run has not exited. */
  lemma WaitsOn<T>(t: System<T>, s: System<T>)
    requires Waits(t, s) && SysInv(s) && SysInv(t) && s.worker != Exited
    ensures t.worker != Exited && Helpful(t) == Helpful(s)
  {
  }

  lemma OneEvent<T>(s: System<T>, sched: nat -> Event, n: nat)
    requires SysInv(s) && At(s, sched, n).worker != Exited
    ensures var a, b := At(s, sched, n), At(s, sched, n + 1);
      || Smaller(b, a)
      || (Waits(b, a) && sched(n) != Helpful(a) && b.worker != Exited && Helpful(b) == Helpful(a))
  {
    hide Smaller, Waits, Helpful, SysInv, Happen;
    AtKeeps(s, sched, n);
    AtKeeps(s, sched, n + 1);
    Progress(At(s, sched, n), sched(n));
    if !Smaller(At(s, sched, n + 1), At(s, sched, n)) {
      WaitsOn(At(s, sched, n + 1), At(s, sched, n));
    }
  }

  /** From any moment on there is a first event that brings the run forward. */
  lemma {:induction false} NextProgress<T>(s: System<T>, sched: nat -> Event, n: nat, m: nat) returns (k: nat)
    requires SysInv(s) && At(s, sched, n).worker != Exited && n <= m && sched(m) == Helpful(At(s, sched, n))
    ensures n < k && Smaller(At(s, sched, k), At(s, sched, n))
    decreases m - n
  {
    hide Smaller, Waits, Helpful, SysInv, At;
    OneEvent(s, sched, n);
    if Smaller(At(s, sched, n + 1), At(s, sched, n)) {
      k := n + 1;
    } else {
      k := NextProgress(s, sched, n + 1, m);
      SmallerThan(At(s, sched, k), At(s, sched, n + 1), At(s, sched, n));
    }
  }

  lemma SmallerThan<T>(u: System<T>, t: System<T>, s: System<T>)
    requires Smaller(u, t) && Waits(t, s)
    ensures Smaller(u, s)
  {
  }

  lemma CountsAreNatural<T>(s: System<T>)
    requires SysInv(s)
    ensures Untaken(s) >= 0 && Unpushed(s) >= 0
  {
  }

  lemma {:induction false} Finishes<T>(s: System<T>, sched: nat -> Event, n: nat) returns (end: nat)
    requires SysInv(s) && Fair(sched)
    ensures At(s, sched, end).worker == Exited
    decreases Untaken(At(s, sched, n)), Unpushed(At(s, sched, n)), FlagsDown(At(s, sched, n)), Phase(At(s, sched, n))
  {
    hide At, Phase, Untaken, Unpushed, FlagsDown, SysInv, Helpful;
    AtKeeps(s, sched, n);
    CountsAreNatural(At(s, sched, n));
    if At(s, sched, n).worker == Exited {
      end := n;
    } else {
      var e := Helpful(At(s, sched, n));
      assert Comes(sched, e, n);
      var m :| n <= m && sched(m) == e;
      var k := NextProgress(s, sched, n, m);
      end := Finishes(s, sched, k);
    }
  }

  /**
   Whatever has happened so far, every fair continuation brings the worker to its exit, with
   exactly the loaded messages taken, once each and in file order.
   */
  lemma EveryFairRunFinishes<T>(s: System<T>, events: seq<Event>, sched: nat -> Event)
    requires Start(s) && Fair(sched)
    ensures exists n :: At(RunAll(s, events), sched, n).worker == Exited
                        && At(RunAll(s, events), sched, n).q.h.popped == s.msgs
  {
    RunKeeps(s, events);
    var t := RunAll(s, events);
    var n := Finishes(t, sched, 0);
    AtKeeps(t, sched, n);
    assert At(t, sched, n).worker == Exited && At(t, sched, n).q.h.popped == s.msgs;
  }
}
