/**
 Trade reports. A call to the zero-allocation book writes at most `max` reports into the
 caller's buffer and draws an identifier only for a report it writes; the vector-based book
 reports every execution.
 */
module Reports {
  import opened Basics
  import opened PriceTime
  import opened LevelBook
  import opened Orders
  import opened BookRuns
  import opened OrderOrigins

  /** The caller's side of one submission: the order, the clock reading and the buffer size. */
  datatype Call = Call(symbol: string, order: ParsedOrder, ts: nat, max: nat)

  /** The caller's trade buffer and trade counter. */
  datatype Log = Log(trades: seq<Trade>, counter: nat)

  /** A report of the zero-allocation book: all texts are bounded copies. */
  function TradeOf(c: Call, f: Fill<Tag>, id: nat): Trade {
    var mine := Copy(c.order.clOrdId, ID_LEN);
    if c.order.side == BUY
    then Trade(id, Copy(c.symbol, SYMBOL_LEN), mine, f.tag.clOrdId, f.price, f.qty, c.ts)
    else Trade(id, Copy(c.symbol, SYMBOL_LEN), f.tag.clOrdId, mine, f.price, f.qty, c.ts)
  }

  function Record(c: Call, log: Log, f: Fill<Tag>): Log {
    if |log.trades| < c.max
    then Log(log.trades + [TradeOf(c, f, log.counter + 1)], log.counter + 1)
    else log
  }

  ghost function RecordAll(c: Call, log: Log, fills: seq<Fill<Tag>>): Log {
    if fills == [] then log
    else Record(c, RecordAll(c, log, fills[..|fills| - 1]), fills[|fills| - 1])
  }

  lemma RecordOneMore(c: Call, log: Log, fills: seq<Fill<Tag>>, f: Fill<Tag>)
    ensures RecordAll(c, log, fills + [f]) == Record(c, RecordAll(c, log, fills), f)
  {
    assert (fills + [f])[..|fills|] == fills;
  }

  lemma {:induction false} RecordAppend(c: Call, log: Log, a: seq<Fill<Tag>>, b: seq<Fill<Tag>>)
    ensures RecordAll(c, log, a + b) == RecordAll(c, RecordAll(c, log, a), b)
  {
    if b == [] {
      assert a + b == a;
    } else {
      var n := |b| - 1;
      RecordAppend(c, log, a, b[..n]);
      assert (a + b)[..|a + b| - 1] == a + b[..n];
    }
  }

  /** Into an empty buffer, the reports are the first `max` executions, numbered consecutively. */
  lemma {:induction false} RecordsFirst(c: Call, counter: nat, fills: seq<Fill<Tag>>)
    ensures var log := RecordAll(c, Log([], counter), fills);
      && |log.trades| == Min(c.max, |fills|)
      && log.counter == counter + |log.trades|
      && forall i :: 0 <= i < |log.trades| ==> log.trades[i] == TradeOf(c, fills[i], counter + i + 1)
  {
    if fills != [] {
      var n := |fills| - 1;
      RecordsFirst(c, counter, fills[..n]);
    }
  }

  /** A report of the vector-based book: full texts, one per execution. */
  function PlainTradeOf(c: Call, f: Fill<PlainTag>, id: nat): Trade {
    if c.order.side == BUY
    then Trade(id, c.symbol, c.order.clOrdId, f.tag.clOrdId, f.price, f.qty, c.ts)
    else Trade(id, c.symbol, f.tag.clOrdId, c.order.clOrdId, f.price, f.qty, c.ts)
  }

  function PlainTrades(c: Call, fills: seq<Fill<PlainTag>>, counter: nat): (t: seq<Trade>)
    ensures |t| == |fills|
    ensures forall i :: 0 <= i < |t| ==> t[i] == PlainTradeOf(c, fills[i], counter + i + 1)
  {
    seq(|fills|, i requires 0 <= i < |fills| => PlainTradeOf(c, fills[i], counter + i + 1))
  }

  lemma NoPlainTrades(c: Call, counter: nat)
    ensures PlainTrades(c, [], counter) == [] && Volume<PlainTag>([]) == 0
  {
  }

  lemma PlainTradesSnoc(c: Call, fills: seq<Fill<PlainTag>>, f: Fill<PlainTag>, counter: nat)
    ensures PlainTrades(c, fills + [f], counter) ==
      PlainTrades(c, fills, counter) + [PlainTradeOf(c, f, counter + |fills| + 1)]
  {
  }

  /** A report with its texts cut to the buffers of the zero-allocation report. */
  function Cut(t: Trade): Trade {
    t.(symbol := Copy(t.symbol, SYMBOL_LEN), buyId := Copy(t.buyId, ID_LEN), sellId := Copy(t.sellId, ID_LEN))
  }

  lemma SimilarReport(c: Call, f: Fill<Tag>, g: Fill<PlainTag>, id: nat, id': nat)
    requires SameFill(SameTag, f, g)
    ensures TradeOf(c, f, id).(tradeId := id') == Cut(PlainTradeOf(c, g, id'))
  {
    ShortenedOnce(f.tag.clOrdId, Copy(g.tag.clOrdId, 31), g.tag.clOrdId, 31);
  }

  // ----- Reports and identifiers over a run -----

  /** The call that submission `n` of a run makes, with a report buffer of its own size. */
  ghost function CallAt(symbol: string, subs: seq<Submission>, maxs: seq<nat>, n: nat): Call
    requires n < |subs| == |maxs|
  {
    Call(symbol, subs[n].order, subs[n].ts, maxs[n])
  }

  /** What call `n` returns in a run of the zero-allocation book that hands the counter from call to call. */
  ghost function LogAt(symbol: string, subs: seq<Submission>, maxs: seq<nat>, n: nat): Log
    requires n < |subs| == |maxs|
    decreases n, 1
  {
    RecordAll(CallAt(symbol, subs, maxs, n), Log([], CounterAt(symbol, subs, maxs, n)), LevelStep(subs, n).fills)
  }

  /** The trade counter before call `n`. */
  ghost function CounterAt(symbol: string, subs: seq<Submission>, maxs: seq<nat>, n: nat): nat
    requires n <= |subs| == |maxs|
    decreases n, 0
  {
    if n == 0 then 0 else LogAt(symbol, subs, maxs, n - 1).counter
  }

  /** What call `n` reports in the same run of the vector-based book, which numbers every trade. */
  ghost function PlainReportsAt(symbol: string, subs: seq<Submission>, maxs: seq<nat>, n: nat): seq<Trade>
    requires n < |subs| == |maxs|
  {
    PlainTrades(CallAt(symbol, subs, maxs, n), PlainStep(subs, n).fills, RunPlain(subs[..n]).trades)
  }

  /** The trades before call `n` that found no room in their call's buffer. */
  ghost function Unreported(subs: seq<Submission>, maxs: seq<nat>, n: nat): nat
    requires n <= |subs| == |maxs|
  {
    if n == 0 then 0
    else
      var k := |LevelStep(subs, n - 1).fills|;
      Unreported(subs, maxs, n - 1) + (k - Min(maxs[n - 1], k))
  }

  lemma TradesStep(subs: seq<Submission>, n: nat)
    requires 0 < n <= |subs|
    ensures RunLevels(subs[..n]).trades == RunLevels(subs[..n - 1]).trades + |LevelStep(subs, n - 1).fills|
  {
    assert subs[..n][..n - 1] == subs[..n - 1];
  }

  /** In every run the counter lags the number of trades by exactly the unreported ones. */
  lemma {:induction false} CounterLags(symbol: string, subs: seq<Submission>, maxs: seq<nat>, n: nat)
    requires n <= |subs| == |maxs|
    ensures CounterAt(symbol, subs, maxs, n) + Unreported(subs, maxs, n) == RunLevels(subs[..n]).trades
  {
    hide RunLevels, LevelStep, RecordAll;
    if n == 0 {
      assert subs[..0] == [];
      NoTrades();
    } else {
      CounterLags(symbol, subs, maxs, n - 1);
      RecordsFirst(CallAt(symbol, subs, maxs, n - 1), CounterAt(symbol, subs, maxs, n - 1), LevelStep(subs, n - 1).fills);
      TradesStep(subs, n);
    }
  }

  lemma NoTrades()
    ensures RunLevels([]).trades == 0
  {
  }

  /**
   In a run that drops nothing, whatever the buffers of its calls: each call's reports are the
   first ones of the vector-based book, texts cut to their buffers, and their identifiers lag by
   the trades that earlier calls left unreported.
   */
  lemma ReportsRefine(symbol: string, subs: seq<Submission>, maxs: seq<nat>, n: nat)
    requires NothingDropped(subs) && n < |subs| == |maxs|
    ensures var log, plain := LogAt(symbol, subs, maxs, n), PlainReportsAt(symbol, subs, maxs, n);
      && |log.trades| == Min(maxs[n], |plain|)
      && forall i :: 0 <= i < |log.trades| ==>
           log.trades[i].(tradeId := log.trades[i].tradeId + Unreported(subs, maxs, n)) == Cut(plain[i])
  {
    hide RunLevels, RunPlain, LevelStep, PlainStep, RecordAll, Cut, TradeOf, PlainTradeOf, NothingDropped;
    var c, counter := CallAt(symbol, subs, maxs, n), CounterAt(symbol, subs, maxs, n);
    var f, g := LevelStep(subs, n).fills, PlainStep(subs, n).fills;
    RunFillsRefine(subs, n);
    RecordsFirst(c, counter, f);
    CounterLags(symbol, subs, maxs, n);
    NothingDroppedBefore(subs, n);
    RunRefines(subs[..n]);
    var log, plain := LogAt(symbol, subs, maxs, n), PlainReportsAt(symbol, subs, maxs, n);
    forall i | 0 <= i < |log.trades|
      ensures log.trades[i].(tradeId := log.trades[i].tradeId + Unreported(subs, maxs, n)) == Cut(plain[i])
    {
      SimilarReport(c, f[i], g[i], counter + i + 1, RunPlain(subs[..n]).trades + i + 1);
      NumberedReport(c, f[i], counter + i + 1);
    }
  }

  lemma NumberedReport(c: Call, f: Fill<Tag>, id: nat)
    ensures TradeOf(c, f, id).tradeId == id
  {
  }

  lemma {:induction false} NothingUnreported(subs: seq<Submission>, maxs: seq<nat>, n: nat)
    requires n <= |subs| == |maxs|
    ensures Unreported(subs, maxs, n) == 0 <==> forall i :: 0 <= i < n ==> |LevelStep(subs, i).fills| <= maxs[i]
  {
    hide LevelStep;
    if n > 0 {
      NothingUnreported(subs, maxs, n - 1);
    }
  }

  /**
   The identifiers drawn by the zero-allocation book and by the vector-based book stay in step up
   to a call exactly as long as no earlier call executes more trades than its own buffer holds.
   */
  lemma CountersInStep(symbol: string, subs: seq<Submission>, maxs: seq<nat>, n: nat)
    requires NothingDropped(subs) && n <= |subs| == |maxs|
    ensures CounterAt(symbol, subs, maxs, n) == RunPlain(subs[..n]).trades <==>
      forall i :: 0 <= i < n ==> |PlainStep(subs, i).fills| <= maxs[i]
  {
    hide RunLevels, RunPlain, LevelStep, PlainStep, CounterAt, NothingDropped;
    NothingDroppedBefore(subs, n);
    RunRefines(subs[..n]);
    CounterLags(symbol, subs, maxs, n);
    NothingUnreported(subs, maxs, n);
    forall i | 0 <= i < n
      ensures |LevelStep(subs, i).fills| == |PlainStep(subs, i).fills|
    {
      RunFillsRefine(subs, i);
    }
  }

  // ----- Who traded with whom -----

  /** The report names `buyer` and `seller`, their identifiers and the symbol cut to their buffers. */
  predicate Names(t: Trade, symbol: string, buyer: ParsedOrder, seller: ParsedOrder) {
    Shortened(t.symbol, symbol, 15) && Shortened(t.buyId, buyer.clOrdId, 31) && Shortened(t.sellId, seller.clOrdId, 31)
  }

  predicate NamesInFull(t: Trade, symbol: string, buyer: ParsedOrder, seller: ParsedOrder) {
    t.symbol == symbol && t.buyId == buyer.clOrdId && t.sellId == seller.clOrdId
  }

  /** Submission `i` came before `n`, from the other side, and its price is the price of the trade. */
  ghost predicate Counterparty(subs: seq<Submission>, n: nat, i: nat, price: int) {
    i < n < |subs| && subs[i].order.side == 3 - subs[n].order.side && subs[i].order.price == price
  }

  function BuyerOf(a: ParsedOrder, b: ParsedOrder): ParsedOrder {
    if a.side == 1 then a else b
  }

  function SellerOf(a: ParsedOrder, b: ParsedOrder): ParsedOrder {
    if a.side == 2 then a else b
  }

  /** Each fill of a run hits what is left of an earlier submission from the other side. */
  lemma FillOfSubmission<T(!new)>(rec: Recorded<T>, subs: seq<Submission>, n: nat, limit: int, p: seq<Resting<T>>,
                                  fills: seq<Fill<T>>, k: nat) returns (i: nat)
    requires n < |subs| && (subs[n].order.side == 1 || subs[n].order.side == 2) && k < |fills|
    requires InPriorityOfArrival(rec, subs[..n], subs[n].order.side == 2, limit, p, fills)
    ensures Counterparty(subs, n, i, fills[k].price) && rec(subs[i], fills[k].tag)
  {
    var isBid := subs[n].order.side == 2;
    var idx :| Origins(rec, subs[..n], isBid, p, idx) && RespectsPriority(isBid, limit, p, idx, fills);
    i := idx[k];
    assert LeftOf(rec, subs[..n][i], isBid, p[k]);
  }

  /**
   Every report of the zero-allocation book: the buyer and the seller are the incoming order and
   an earlier submission from the other side, each named by the first 31 characters of its own
   identifier, with the first 15 of the symbol, at the earlier order's price.
   */
  lemma ReportsNameBuyerAndSeller(subs: seq<Submission>, n: nat, k: nat, c: Call, id: nat)
    requires n < |subs| && (subs[n].order.side == 1 || subs[n].order.side == 2) && c.order == subs[n].order
    requires k < |LevelStep(subs, n).fills|
    ensures var f := LevelStep(subs, n).fills[k];
      var t := TradeOf(c, f, id);
      && t.price == f.price && t.qty == f.qty && t.tradeId == id && t.ts == c.ts
      && exists i: nat :: Counterparty(subs, n, i, t.price)
           && Names(t, c.symbol, BuyerOf(c.order, subs[i].order), SellerOf(c.order, subs[i].order))
  {
    hide LevelStep, InPriorityOfArrival, Shortened, RunLevels;
    PriorityOverRuns(subs, n);
    var fills := LevelStep(subs, n).fills;
    var isBid := subs[n].order.side == 2;
    var i := FillOfSubmission(AsTag, subs, n, c.order.price, Flat(RunLevels(subs[..n]).Side(isBid)), fills, k);
    var t := TradeOf(c, fills[k], id);
    assert Names(t, c.symbol, BuyerOf(c.order, subs[i].order), SellerOf(c.order, subs[i].order)) by {
      CopyShortens(c.order.clOrdId, 31);
      CopyShortens(c.symbol, 15);
    }
  }

  lemma CopyShortens(s: string, n: nat)
    ensures Shortened(Copy(s, n), s, n)
  {
  }

  /** Every report of the vector-based book: the same, with all texts in full. */
  lemma PlainReportsNameBuyerAndSeller(subs: seq<Submission>, n: nat, k: nat, c: Call, id: nat)
    requires n < |subs| && (subs[n].order.side == 1 || subs[n].order.side == 2) && c.order == subs[n].order
    requires k < |PlainStep(subs, n).fills|
    ensures var f := PlainStep(subs, n).fills[k];
      var t := PlainTradeOf(c, f, id);
      && t.price == f.price && t.qty == f.qty && t.tradeId == id && t.ts == c.ts
      && exists i: nat :: Counterparty(subs, n, i, t.price)
           && NamesInFull(t, c.symbol, BuyerOf(c.order, subs[i].order), SellerOf(c.order, subs[i].order))
  {
    hide PlainStep, InPriorityOfArrival, RunPlain;
    PlainPriorityOverRuns(subs, n);
    var fills := PlainStep(subs, n).fills;
    var isBid := subs[n].order.side == 2;
    var i := FillOfSubmission(AsPlainTag, subs, n, c.order.price, RunPlain(subs[..n]).Side(isBid), fills, k);
    var t := PlainTradeOf(c, fills[k], id);
    assert NamesInFull(t, c.symbol, BuyerOf(c.order, subs[i].order), SellerOf(c.order, subs[i].order));
  }
}
