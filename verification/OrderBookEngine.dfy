/** The order book engine's pipeline: arbitrate, detect gaps, gate, match. */
module OrderBookEngine {
  import opened Basics
  import opened LevelBook
  import opened Orders
  import opened BookRuns
  import opened Reports
  import opened RiskGate
  import opened GatedBook
  import opened BookSides
  import opened ZeroAllocBook
  import FA = FeedArbitrators
  import GD = GapDetectors

  const WINDOW: nat := 2048
  const REPORTS: nat := 16

  datatype Engine = Engine(arb: FA.Arbiter, gap: GD.Detector, book: Book<Levels>, counter: nat,
                           approved: nat, rejected: nat)

  ghost predicate Windowed(e: Engine) {
    |e.arb.seen| == WINDOW && |e.arb.winners| == WINDOW
  }

  const INITIAL: Engine := Engine(FA.Fresh(WINDOW), GD.Detector(1, 0, 0, 0), EMPTY_LEVELS, 0, 0, 0)

  /** Orders without a sequence number pass the arbitrator by. */
  function Arbitrated(e: Engine, o: ParsedOrder): (FA.Arbiter, FA.Verdict)
    requires Windowed(e)
  {
    if o.seqNum > 0 then FA.Arbitrate(e.arb, FA.Packet(FA.LineA, o.seqNum)) else (e.arb, FA.Verdict(false, FA.LineA))
  }

  predicate Passes(o: ParsedOrder) {
    Evaluate(DEFAULT_LIMITS, o, REFERENCE) == Approved
  }

  /** The order reaches the book: it passed the gate and is a New Order - Single. */
  predicate Submits(o: ParsedOrder) {
    Passes(o) && o.msgTypeChar == 'D'
  }

  ghost function CallFor(symbol: string, o: ParsedOrder, ts: nat): Call {
    Call(symbol, o, ts, REPORTS)
  }

  /** The first half of the pipeline: arbitration, and gap detection for what is not a duplicate. */
  ghost function Screened(e: Engine, o: ParsedOrder): (e': Engine)
    requires Windowed(e)
    ensures Windowed(e') && e' == e.(arb := e'.arb, gap := e'.gap)
  {
    var (arb, v) := Arbitrated(e, o);
    if v.duplicate || o.seqNum == 0 then e.(arb := arb) else e.(arb := arb, gap := GD.Check(e.gap, o.seqNum).0)
  }

  /** The second half: the risk gate, and the book for a New Order - Single that passes. */
  ghost function Gate(e: Engine, o: ParsedOrder, ts: nat): (e': Engine)
    ensures e'.arb == e.arb && e'.gap == e.gap
  {
    if !Passes(o) then e.(rejected := e.rejected + 1)
    else if o.msgTypeChar != 'D' then e.(approved := e.approved + 1)
    else
      var out := SubmitLevels(e.book, o, ts);
      e.(book := out.book, counter := e.counter + Min(REPORTS, |out.fills|), approved := e.approved + 1)
  }

  ghost function Handle(e: Engine, o: ParsedOrder, ts: nat): (e': Engine)
    requires Windowed(e)
    ensures Windowed(e')
  {
    if Arbitrated(e, o).1.duplicate then Screened(e, o) else Gate(Screened(e, o), o, ts)
  }

  // ----- Runs -----

  /** The engine with the submissions it has passed on to its book. */
  datatype Trail = Trail(e: Engine, passed: seq<Submission>)

  ghost function Advance(t: Trail, s: Submission): Trail
    requires Windowed(t.e)
  {
    var e := Handle(t.e, s.order, s.ts);
    if !Arbitrated(t.e, s.order).1.duplicate && Submits(s.order) then Trail(e, t.passed + [s]) else Trail(e, t.passed)
  }

  ghost function RunEngine(stream: seq<Submission>): (t: Trail)
    ensures Windowed(t.e)
  {
    if stream == [] then Trail(INITIAL, []) else Advance(RunEngine(stream[..|stream| - 1]), stream[|stream| - 1])
  }

  /** A batch of orders, one after the other. */
  ghost function HandleAll(e: Engine, batch: seq<Submission>): (e': Engine)
    requires Windowed(e)
    ensures Windowed(e')
  {
    if batch == [] then e
    else Handle(HandleAll(e, batch[..|batch| - 1]), batch[|batch| - 1].order, batch[|batch| - 1].ts)
  }

  lemma {:induction false} RunIsHandleAll(stream: seq<Submission>)
    ensures RunEngine(stream).e == HandleAll(INITIAL, stream)
  {
    hide Handle;
    if |stream| > 0 {
      RunIsHandleAll(stream[..|stream| - 1]);
    }
  }

  /** Cutting a stream into batches anywhere makes no difference. */
  lemma {:induction false} BatchesJoin(e: Engine, a: seq<Submission>, b: seq<Submission>)
    requires Windowed(e)
    ensures HandleAll(HandleAll(e, a), b) == HandleAll(e, a + b)
  {
    hide Handle;
    if b == [] {
      assert a + b == a;
    } else {
      var n := |b| - 1;
      BatchesJoin(e, a, b[..n]);
      assert (a + b)[..|a + b| - 1] == a + b[..n];
    }
  }

  /** What decoding guarantees: a 32-bit quantity. */
  ghost predicate Decoded(stream: seq<Submission>) {
    forall i :: 0 <= i < |stream| ==> FitsInt32(stream[i].order.quantity)
  }

  lemma RunLevelsSnoc(subs: seq<Submission>, s: Submission)
    ensures RunLevels(subs + [s]) == SubmitLevels(RunLevels(subs), s.order, s.ts).book
  {
    assert (subs + [s])[..|subs|] == subs;
  }

  ghost predicate Consistent(stream: seq<Submission>, t: Trail) {
    && t.e.book == RunLevels(t.passed)
    && Gated(t.passed)
    && t.e.approved + t.e.rejected + t.e.arb.duplicates == |stream|
  }

  lemma AdvanceConsistent(stream: seq<Submission>, t: Trail, s: Submission)
    requires Windowed(t.e) && Consistent(stream, t)
    requires FitsInt32(s.order.quantity)
    ensures Consistent(stream + [s], Advance(t, s))
  {
    hide SubmitLevels, RunLevels, Evaluate;
    DefaultGate(s.order);
    RunLevelsSnoc(t.passed, s);
  }

  /**
   Over every run the engine's book is the book of exactly the submissions that passed the gate,
   in order; and every order of the stream is counted once, as approved, rejected or duplicate.
   */
  lemma {:induction false} EngineFeedsGatedBook(stream: seq<Submission>)
    requires Decoded(stream)
    ensures Consistent(stream, RunEngine(stream))
  {
    if |stream| > 0 {
      var n := |stream| - 1;
      EngineFeedsGatedBook(stream[..n]);
      AdvanceConsistent(stream[..n], RunEngine(stream[..n]), stream[n]);
      assert stream[..n] + [stream[n]] == stream;
    }
  }

  /** The book is well formed and uncrossed, and its snapshot shows strict decks, true quantities and a positive spread. */
  ghost predicate SoundBook(b: Book<Levels>) {
    var t := TopOf(b);
    && WfBook(b) && Uncrossed(b)
    && SoundDeck(true, b.bids, t.bidDepth) && SoundDeck(false, b.asks, t.askDepth)
    && ShowsBest(true, Flat(b.bids), t.bidPrice, t.bidQty) && ShowsBest(false, Flat(b.asks), t.askPrice, t.askQty)
    && (b.bids != [] && b.asks != [] ==> t.spread == t.askPrice - t.bidPrice > 0)
  }

  /** Composition with the book's laws: whatever arrives, the engine's book is sound. */
  lemma EngineBookIsSound(stream: seq<Submission>)
    requires Decoded(stream)
    ensures SoundBook(RunEngine(stream).e.book)
  {
    hide RunLevels, RunEngine, WfBook, Uncrossed, SoundDeck, ShowsBest, OrderedDeck;
    EngineFeedsGatedBook(stream);
    var passed := RunEngine(stream).passed;
    ReachableBook(passed);
    TopOfBookIsOrdered(passed);
    TopOfBookIsSound(passed);
  }

  // ----- No sequence number reaches the book twice -----

  /** The packets the arbitrator sees. */
  ghost function Arrivals(stream: seq<Submission>): seq<FA.Packet> {
    if stream == [] then []
    else
      var rest, num := Arrivals(stream[..|stream| - 1]), stream[|stream| - 1].order.seqNum;
      if num > 0 then rest + [FA.Packet(FA.LineA, num)] else rest
  }

  lemma ArbiterStep(t: Trail, s: Submission)
    requires Windowed(t.e)
    ensures Advance(t, s).e.arb ==
      if s.order.seqNum > 0 then FA.Arbitrate(t.e.arb, FA.Packet(FA.LineA, s.order.seqNum)).0 else t.e.arb
  {
    hide SubmitLevels, Evaluate, GD.Check, FA.Arbitrate;
  }

  lemma {:induction false} ArbiterSeesArrivals(stream: seq<Submission>)
    ensures RunEngine(stream).e.arb == FA.Run(WINDOW, Arrivals(stream))
  {
    hide Advance, FA.Arbitrate;
    if |stream| > 0 {
      var n := |stream| - 1;
      ArbiterSeesArrivals(stream[..n]);
      ArbiterStep(RunEngine(stream[..n]), stream[n]);
      var rest, num := Arrivals(stream[..n]), stream[n].order.seqNum;
      if num > 0 {
        assert (rest + [FA.Packet(FA.LineA, num)])[..|rest|] == rest;
      }
    }
  }

  /** Positive numbers passed on are pairwise different and have all arrived. */
  ghost predicate NumbersOnce(passed: seq<Submission>, arrivals: seq<FA.Packet>) {
    && (forall i :: 0 <= i < |passed| && passed[i].order.seqNum > 0 ==> FA.Arrived(arrivals, passed[i].order.seqNum))
    && (forall i, j :: 0 <= i < j < |passed| && passed[i].order.seqNum > 0 ==>
          passed[i].order.seqNum != passed[j].order.seqNum)
  }

  lemma StillArrived(arrivals: seq<FA.Packet>, p: FA.Packet, num: nat)
    requires FA.Arrived(arrivals, num) || p.num == num
    ensures FA.Arrived(arrivals + [p], num)
  {
    var all := arrivals + [p];
    assert all[|arrivals|] == p && all[..|arrivals|] == arrivals;
    FA.ArrivedSnoc(all, num);
  }

  lemma NumbersOnceStep(passed: seq<Submission>, arrivals: seq<FA.Packet>, s: Submission, keep: bool)
    requires NumbersOnce(passed, arrivals) && s.order.seqNum > 0
    requires keep ==> !FA.Arrived(arrivals, s.order.seqNum)
    ensures NumbersOnce(if keep then passed + [s] else passed, arrivals + [FA.Packet(FA.LineA, s.order.seqNum)])
  {
    var p := FA.Packet(FA.LineA, s.order.seqNum);
    forall num: nat | FA.Arrived(arrivals, num) || p.num == num
      ensures FA.Arrived(arrivals + [p], num)
    {
      StillArrived(arrivals, p, num);
    }
  }

  /**
   If every arrival exceeds the largest before it less the window, no positive sequence number
   reaches the book twice.
   */
  lemma {:induction false} NoNumberTwice(stream: seq<Submission>)
    requires FA.Windowed(WINDOW, Arrivals(stream))
    ensures NumbersOnce(RunEngine(stream).passed, Arrivals(stream))
  {
    hide FA.Run, FA.Arbitrate, Handle;
    if |stream| > 0 {
      var n := |stream| - 1;
      var t, s, rest := RunEngine(stream[..n]), stream[n], Arrivals(stream[..n]);
      if s.order.seqNum == 0 {
        NoNumberTwice(stream[..n]);
      } else {
        var p := FA.Packet(FA.LineA, s.order.seqNum);
        assert Arrivals(stream) == rest + [p];
        assert FA.Windowed(WINDOW, rest) by {
          assert (rest + [p])[..|rest + [p]| - 1] == rest;
          FA.WindowedPrefix(WINDOW, rest + [p]);
        }
        NoNumberTwice(stream[..n]);
        ArbiterSeesArrivals(stream[..n]);
        FA.FlaggedIffArrived(WINDOW, rest, p);
        NumbersOnceStep(t.passed, rest, s, !Arbitrated(t.e, s.order).1.duplicate && Submits(s.order));
      }
    }
  }

  // ----- What a stream does to the engine, component by component -----

  /** The order's number is flagged by an arbiter that has seen the numbers of the orders before it. */
  ghost predicate Repeated(before: seq<Submission>, o: ParsedOrder) {
    o.seqNum > 0 && FA.Verdict'(2048, Arrivals(before), FA.Packet(FA.LineA, o.seqNum)).duplicate
  }

  /** The numbers that get past arbitration: positive and not flagged. */
  ghost function FreshNumbers(stream: seq<Submission>): seq<nat> {
    if stream == [] then []
    else
      var n := |stream| - 1;
      var o := stream[n].order;
      if o.seqNum > 0 && !Repeated(stream[..n], o) then FreshNumbers(stream[..n]) + [o.seqNum] else FreshNumbers(stream[..n])
  }

  /** Not flagged, and within the gate's bounds: 0 to 50,000 at $30 to $40. */
  ghost predicate Approves(before: seq<Submission>, o: ParsedOrder) {
    !Repeated(before, o) && 0 <= o.quantity <= 50_000 && 30_000_000 <= o.price <= 40_000_000
  }

  /** The submissions that reach the book: approved New Order - Singles. */
  ghost function Accepted(stream: seq<Submission>): seq<Submission> {
    if stream == [] then []
    else
      var n := |stream| - 1;
      var s := stream[n];
      if Approves(stream[..n], s.order) && s.order.msgTypeChar == 'D' then Accepted(stream[..n]) + [s]
      else Accepted(stream[..n])
  }

  ghost function ApprovedCount(stream: seq<Submission>): nat {
    if stream == [] then 0
    else ApprovedCount(stream[..|stream| - 1]) + (if Approves(stream[..|stream| - 1], stream[|stream| - 1].order) then 1 else 0)
  }

  ghost function RepeatedCount(stream: seq<Submission>): nat {
    if stream == [] then 0
    else RepeatedCount(stream[..|stream| - 1]) + (if Repeated(stream[..|stream| - 1], stream[|stream| - 1].order) then 1 else 0)
  }

  /** The trades a run reports when every call has room for 16 reports. */
  ghost function Reported(subs: seq<Submission>): nat {
    if subs == [] then 0 else Reported(subs[..|subs| - 1]) + Min(16, |LevelStep(subs, |subs| - 1).fills|)
  }

  ghost predicate Means(stream: seq<Submission>, t: Trail) {
    && t.e.arb == FA.Run(2048, Arrivals(stream))
    && t.e.gap == GD.Run(1, FreshNumbers(stream)).d
    && t.passed == Accepted(stream)
    && t.e.book == RunLevels(Accepted(stream))
    && t.e.counter == Reported(Accepted(stream))
    && t.e.approved == ApprovedCount(stream)
    && t.e.approved + t.e.rejected + RepeatedCount(stream) == |stream|
  }

  lemma GapRunSnoc(nums: seq<nat>, x: nat)
    ensures GD.Run(1, nums + [x]).d == GD.Check(GD.Run(1, nums).d, x).0
  {
    assert (nums + [x])[..|nums|] == nums;
  }

  lemma ReportedSnoc(subs: seq<Submission>, s: Submission)
    ensures Reported(subs + [s]) == Reported(subs) + Min(16, |SubmitLevels(RunLevels(subs), s.order, s.ts).fills|)
  {
    assert (subs + [s])[..|subs|] == subs;
  }

  lemma ArrivalsStep(stream: seq<Submission>, s: Submission)
    ensures Arrivals(stream + [s]) ==
      if s.order.seqNum > 0 then Arrivals(stream) + [FA.Packet(FA.LineA, s.order.seqNum)] else Arrivals(stream)
  {
    assert (stream + [s])[..|stream|] == stream;
  }

  lemma ArbiterRunSnoc(ps: seq<FA.Packet>, p: FA.Packet)
    ensures FA.Run(2048, ps + [p]) == FA.Arbitrate(FA.Run(2048, ps), p).0
  {
    assert (ps + [p])[..|ps|] == ps;
  }

  /** The arbiter's state and verdict. */
  lemma ArbitratedMeans(stream: seq<Submission>, e: Engine, s: Submission)
    requires Windowed(e) && e.arb == FA.Run(2048, Arrivals(stream))
    ensures Arbitrated(e, s.order).1.duplicate <==> Repeated(stream, s.order)
    ensures Arbitrated(e, s.order).0 == FA.Run(2048, Arrivals(stream + [s]))
  {
    hide FA.Arbitrate, FA.Run;
    ArrivalsStep(stream, s);
    if s.order.seqNum > 0 {
      ArbiterRunSnoc(Arrivals(stream), FA.Packet(FA.LineA, s.order.seqNum));
    }
  }

  /** The counts and lists of a stream one order longer. */
  lemma StreamSnoc(stream: seq<Submission>, s: Submission)
    ensures var o := s.order;
      && FreshNumbers(stream + [s]) ==
           (if o.seqNum > 0 && !Repeated(stream, o) then FreshNumbers(stream) + [o.seqNum] else FreshNumbers(stream))
      && Accepted(stream + [s]) ==
           (if Approves(stream, o) && o.msgTypeChar == 'D' then Accepted(stream) + [s] else Accepted(stream))
      && ApprovedCount(stream + [s]) == ApprovedCount(stream) + (if Approves(stream, o) then 1 else 0)
      && RepeatedCount(stream + [s]) == RepeatedCount(stream) + (if Repeated(stream, o) then 1 else 0)
  {
    hide Repeated, Approves;
    assert (stream + [s])[..|stream|] == stream;
  }

  lemma AdvanceMeans(stream: seq<Submission>, t: Trail, s: Submission)
    requires Windowed(t.e) && Means(stream, t) && FitsInt32(s.order.quantity)
    ensures Means(stream + [s], Advance(t, s))
  {
    hide FA.Arbitrate, FA.Run, GD.Check, GD.Run, SubmitLevels, RunLevels, Evaluate, Repeated, Arbitrated, Arrivals;
    hide FreshNumbers, Accepted, ApprovedCount, RepeatedCount, Reported;
    ArbitratedMeans(stream, t.e, s);
    StreamSnoc(stream, s);
    DefaultGate(s.order);
    GapRunSnoc(FreshNumbers(stream), s.order.seqNum);
    RunLevelsSnoc(Accepted(stream), s);
    ReportedSnoc(Accepted(stream), s);
  }

  lemma InitialMeans()
    ensures Means([], Trail(INITIAL, []))
  {
  }

  /**
   After every stream of decoded orders, each component of the engine is in the state of having
   been given exactly its own share of the stream: the arbiter all positive numbers, the gap
   detector those that are not flagged, the book the approved New Order - Singles; and every order
   is counted once.
   */
  lemma {:induction false} EngineMeans(stream: seq<Submission>)
    requires Decoded(stream)
    ensures Means(stream, RunEngine(stream))
  {
    hide Means, Advance;
    if |stream| == 0 {
      InitialMeans();
    } else {
      var n := |stream| - 1;
      EngineMeans(stream[..n]);
      AdvanceMeans(stream[..n], RunEngine(stream[..n]), stream[n]);
      assert stream[..n] + [stream[n]] == stream;
    }
  }

  /** So the engine's gap accounting partitions the numbers from 1 on into fresh ones and reported gaps. */
  lemma EngineGapsPartition(stream: seq<Submission>)
    requires Decoded(stream)
    ensures var t := GD.Run(1, FreshNumbers(stream));
      && RunEngine(stream).e.gap == t.d
      && GD.Partitions(1, t) && GD.Ascending(t) && GD.Counted(1, t)
  {
    hide RunEngine, GD.Run, FreshNumbers;
    EngineMeans(stream);
    GD.GapsPartition(1, FreshNumbers(stream));
  }

  /** Numbers in the order in which they first arrive. */
  ghost function FirstArrivals(ps: seq<FA.Packet>): seq<nat> {
    if ps == [] then []
    else
      var n := |ps| - 1;
      if FA.Arrived(ps[..n], ps[n].num) then FirstArrivals(ps[..n]) else FirstArrivals(ps[..n]) + [ps[n].num]
  }

  /** Within the window the fresh numbers are the distinct ones, in order of first arrival. */
  lemma {:induction false} FreshAreFirstArrivals(stream: seq<Submission>)
    requires FA.Windowed(2048, Arrivals(stream))
    ensures FreshNumbers(stream) == FirstArrivals(Arrivals(stream))
  {
    hide FA.Arrived;
    if |stream| > 0 {
      var n := |stream| - 1;
      var before, o := Arrivals(stream[..n]), stream[n].order;
      if o.seqNum == 0 {
        FreshAreFirstArrivals(stream[..n]);
      } else {
        var p := FA.Packet(FA.LineA, o.seqNum);
        assert Arrivals(stream) == before + [p] && (before + [p])[..|before|] == before;
        FA.WindowedPrefix(2048, before + [p]);
        FreshAreFirstArrivals(stream[..n]);
        FA.FlaggedIffArrived(2048, before, p);
      }
    }
  }

  /** The engine's trade numbers are those of the book's run with 16 reports a call. */
  lemma {:induction false} ReportedIsCounter(symbol: string, subs: seq<Submission>, maxs: seq<nat>, n: nat)
    requires n <= |subs| == |maxs| && forall i :: 0 <= i < |maxs| ==> maxs[i] == 16
    ensures Reported(subs[..n]) == CounterAt(symbol, subs, maxs, n)
  {
    hide LevelStep, RecordAll;
    if n == 0 {
      assert subs[..0] == [];
    } else {
      ReportedIsCounter(symbol, subs, maxs, n - 1);
      StepOfPrefix(subs, n, n - 1);
      assert subs[..n][..n - 1] == subs[..n - 1];
      RecordsFirst(CallAt(symbol, subs, maxs, n - 1), CounterAt(symbol, subs, maxs, n - 1), LevelStep(subs, n - 1).fills);
    }
  }

  // ----- The engine object -----

  /** Where the gate computes the price's distance from the reference, it fits in 64 bits. */
  predicate InRange(o: ParsedOrder) {
    ReachesCollar(DEFAULT_LIMITS, o, REFERENCE) ==> FitsInt64(Distance(o.price, REFERENCE))
  }

  class HftOrderBookEngine {
    const risk: PreTradeRiskManager
    const gap: GD.SequenceGapDetector
    const arb: FA.FeedArbitrator
    const book: ZeroAllocHftOrderBook
    var counter: nat
    var approved: nat
    var rejected: nat

    /** The components share no storage with the book. */
    ghost predicate Apart() {
      var storage := book.bids.repr + book.asks.repr;
      && this !in storage && risk !in storage && gap !in storage && arb !in storage
      && arb.seen !in storage && arb.winners !in storage
    }

    ghost predicate Valid()
      reads this, risk, book, book.bids, book.asks, book.bids.repr, book.asks.repr
    {
      && Apart() && book.Valid() && arb.Valid() && arb.seen.Length == WINDOW
      && risk.limits == DEFAULT_LIMITS
    }

    ghost function Model(): Engine
      reads this, gap, arb, arb.seen, arb.winners, book, book.bids, book.asks
    {
      Engine(arb.Model(), gap.Model(), book.Model(), counter, approved, rejected)
    }

    constructor ()
      ensures Valid() && Model() == INITIAL && book.symbol == "PETR4"
    {
      risk := new PreTradeRiskManager(DEFAULT_LIMITS);
      gap := new GD.SequenceGapDetector(1);
      arb := new FA.FeedArbitrator(WINDOW);
      book := new ZeroAllocHftOrderBook("PETR4");
      counter, approved, rejected := 0, 0, 0;
      new;
      assert Apart();
    }

    /** Steps 2 and 3 of the pipeline: true if the order is a duplicate and goes no further. */
    method Screen(order: ParsedOrder) returns (duplicate: bool)
      requires Valid()
      modifies arb, arb.seen, arb.winners, gap
      ensures Valid()
      ensures Model() == Screened(old(Model()), order) && duplicate == Arbitrated(old(Model()), order).1.duplicate
    {
      hide FA.Arbitrate, GD.Check;
      if order.seqNum == 0 {
        return false;
      }
      var v := arb.ProcessPacket(FA.LineA, order.seqNum);
      duplicate := v.duplicate;
      if !duplicate {
        var status, range := gap.ProcessSequence(order.seqNum);
      }
    }

    /** Step 5: the book and the trade counter move, nothing else does. */
    method Submit(order: ParsedOrder, ts: nat) returns (log: Log)
      requires Valid()
      modifies this`counter, book, book.bids.repr, book.asks.repr
      ensures Valid()
      ensures log == RecordAll(CallFor(book.symbol, order, ts), Log([], old(counter)),
                               SubmitLevels(old(book.Model()), order, ts).fills)
      ensures Model() == old(Model()).(book := SubmitLevels(old(book.Model()), order, ts).book,
        counter := old(counter) + Min(REPORTS, |SubmitLevels(old(book.Model()), order, ts).fills|))
    {
      hide SubmitLevels;
      ghost var fills := SubmitLevels(book.Model(), order, ts).fills;
      RecordsFirst(CallFor(book.symbol, order, ts), counter, fills);
      log := book.SubmitOrder(order, REPORTS, counter, ts);
      counter := log.counter;
    }

    /** Steps 4 and 5: gate, then match. */
    method GateOrder(order: ParsedOrder, ts: nat)
      requires Valid() && InRange(order)
      modifies this, risk, book, book.bids.repr, book.asks.repr
      ensures Valid() && Model() == Gate(old(Model()), order, ts)
    {
      hide SubmitLevels, Evaluate;
      var status := risk.EvaluateOrder(order, REFERENCE);
      if status == Approved {
        if order.msgTypeChar == 'D' {
          var log := Submit(order, ts);
        }
        approved := approved + 1;
      } else {
        rejected := rejected + 1;
      }
    }

    /** One order through the pipeline. */
    method HandleOrder(order: ParsedOrder, ts: nat)
      requires Valid() && InRange(order)
      modifies this, risk, gap, arb, arb.seen, arb.winners, book, book.bids.repr, book.asks.repr
      ensures Valid() && Model() == Handle(old(Model()), order, ts)
    {
      hide Screened, Gate, Arbitrated;
      var duplicate := Screen(order);
      if !duplicate {
        GateOrder(order, ts);
      }
    }

    /** The batch loop over decoded orders. */
    method HandleBatch(batch: seq<Submission>)
      requires Valid() && forall i :: 0 <= i < |batch| ==> InRange(batch[i].order)
      modifies this, risk, gap, arb, arb.seen, arb.winners, book, book.bids.repr, book.asks.repr
      ensures Valid() && Model() == HandleAll(old(Model()), batch)
    {
      hide Handle;
      ghost var start := Model();
      for b := 0 to |batch|
        invariant Valid() && Model() == HandleAll(start, batch[..b])
      {
        HandleOrder(batch[b].order, batch[b].ts);
        assert batch[..b + 1][..b] == batch[..b];
      }
      assert batch[..|batch|] == batch;
    }

    method Rows(side: BookSide) returns (rows: seq<Depth>)
      requires side.Valid()
      ensures rows == Deck(side.model)
    {
      rows := [];
      var n := Min(side.levelCount, DECK);
      for i := 0 to n
        invariant |rows| == i && forall k :: 0 <= k < i ==> rows[k] == DepthOf(side.model[k])
      {
        var l := side.levels[i];
        assert l == side.live[i] && l in side.live && l.Valid();
        rows := rows + [Depth(l.price, l.cachedQty, l.count)];
      }
    }

    method Best(side: BookSide) returns (price: int, qty: nat)
      requires side.Valid()
      ensures price == BestPrice(side.model) && qty == BestQty(side.model)
    {
      if side.levelCount == 0 {
        return 0, 0;
      }
      var l := side.levels[0];
      assert l == side.live[0] && l in side.live && l.Valid();
      return l.price, l.cachedQty;
    }

    /** Best bid and offer, spread and the five-row depth decks. */
    method GetTopOfBookSnapshot() returns (t: TopOfBook)
      requires Valid()
      ensures t == TopOf(book.Model())
    {
      hide WfSide, Partition, Cached;
      var bidPrice, bidQty := Best(book.bids);
      var askPrice, askQty := Best(book.asks);
      var spread := 0;
      if bidPrice > 0 && askPrice > 0 {
        spread := if askPrice >= bidPrice then askPrice - bidPrice else 0;
      }
      var bidDepth := Rows(book.bids);
      var askDepth := Rows(book.asks);
      t := TopOfBook(bidPrice, bidQty, askPrice, askQty, spread, bidDepth, askDepth);
    }
  }
}
