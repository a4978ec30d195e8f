/** The zero-allocation limit order book: matching in place over pooled price levels. */
module ZeroAllocBook {
  import opened Basics
  import opened PriceTime
  import opened LevelBook
  import opened Orders
  import opened BookRuns
  import opened Reports
  import opened PriceLevels
  import opened BookSides

  /** Every order of the queue can trade at the limit, and has something left. */
  ghost predicate Tradable(isBid: bool, limit: int, queue: seq<BookOrder>) {
    forall i :: 0 <= i < |queue| ==> queue[i].qty > 0 && !Better(isBid, limit, queue[i].price)
  }

  lemma TradableTurn(isBid: bool, limit: int, queue: seq<BookOrder>, q: nat)
    requires queue != [] && Tradable(isBid, limit, queue) && q <= queue[0].qty
    ensures Tradable(isBid, limit, AfterFront(queue, q))
  {
  }

  /** The best level of a well-formed side can trade, and what matching leaves of it is again a level or nothing. */
  lemma BestTrades(isBid: bool, limit: int, levels: Levels, rem: nat)
    requires WfSide(isBid, levels) && levels != [] && !Better(isBid, limit, levels[0].price)
    ensures Tradable(isBid, limit, levels[0].orders)
    ensures var q := Match(isBid, limit, levels[0].orders, rem).book;
      q == [] || WfLevel(Level(levels[0].price, q))
  {
    var l := levels[0];
    assert WfLevel(l);
    MatchLeavesTail(isBid, limit, l.orders, rem);
    var q := Match(isBid, limit, l.orders, rem).book;
    assert forall i :: 0 <= i < |q| ==> Remains(q[i], l.orders[|l.orders| - |q| + i]);
  }

  /** The sweep `whole` is `fills`, already executed, followed by the sweep of what is left. */
  ghost predicate Sweeping(isBid: bool, limit: int, whole: Swept<Tag>, levels: Levels, rem: nat,
                           fills: seq<Fill<Tag>>) {
    var w := Sweep(isBid, limit, levels, rem);
    whole == Swept(w.levels, w.rem, fills + w.fills)
  }

  ghost predicate SweepDone(isBid: bool, limit: int, levels: Levels, rem: nat) {
    levels == [] || rem == 0 || Better(isBid, limit, levels[0].price)
  }

  /** The side after the best level was matched with result `r`. */
  ghost function AfterBest(levels: Levels, r: Matched<Tag>): Levels
    requires levels != []
  {
    if r.book == [] then levels[1..] else [levels[0].(orders := r.book)] + levels[1..]
  }

  lemma SweepOneLevel(isBid: bool, limit: int, whole: Swept<Tag>, levels: Levels, rem: nat,
                      fills: seq<Fill<Tag>>, r: Matched<Tag>)
    requires !SweepDone(isBid, limit, levels, rem) && Sweeping(isBid, limit, whole, levels, rem, fills)
    requires r == Match(isBid, limit, levels[0].orders, rem) && (r.book == [] || r.rem == 0)
    ensures Sweeping(isBid, limit, whole, AfterBest(levels, r), r.rem, fills + r.fills)
  {
    var w := Sweep(isBid, limit, AfterBest(levels, r), r.rem);
    assert fills + (r.fills + w.fills) == (fills + r.fills) + w.fills;
    assert r.fills + [] == r.fills;
  }

  lemma SweepStart(isBid: bool, limit: int, levels: Levels, rem: nat)
    ensures Sweeping(isBid, limit, Sweep(isBid, limit, levels, rem), levels, rem, [])
  {
  }

  lemma SweepOver(isBid: bool, limit: int, whole: Swept<Tag>, levels: Levels, rem: nat, fills: seq<Fill<Tag>>)
    requires SweepDone(isBid, limit, levels, rem) && Sweeping(isBid, limit, whole, levels, rem, fills)
    ensures whole == Swept(levels, rem, fills)
  {
  }

  /** The reports and totals that `fills` leave behind. */
  ghost predicate Accounted(c: Call, log0: Log, fills: seq<Fill<Tag>>, log: Log, trades: int, volume: int) {
    log == RecordAll(c, log0, fills) && trades == |fills| && volume == Volume(fills)
  }

  lemma AccountStart(c: Call, log: Log)
    ensures Accounted(c, log, [], log, 0, 0)
  {
  }

  lemma AccountTurn(c: Call, log0: Log, fills: seq<Fill<Tag>>, log: Log, trades: int, volume: int, f: Fill<Tag>)
    requires Accounted(c, log0, fills, log, trades, volume)
    ensures Accounted(c, log0, fills + [f], Record(c, log, f), trades + 1, volume + f.qty)
  {
    RecordOneMore(c, log0, fills, f);
    VolumeAppend(fills, [f]);
    assert Volume([f]) == f.qty;
  }

  lemma AccountAppend(c: Call, log0: Log, a: seq<Fill<Tag>>, log: Log, trades: int, volume: int,
                      b: seq<Fill<Tag>>, log': Log, trades': int, volume': int)
    requires Accounted(c, log0, a, log, trades, volume) && Accounted(c, log, b, log', trades', volume')
    ensures Accounted(c, log0, a + b, log', trades + trades', volume + volume')
  {
    RecordAppend(c, log0, a, b);
    VolumeAppend(a, b);
  }

  class ZeroAllocHftOrderBook {
    const symbol: string
    const bids: BookSide
    const asks: BookSide
    var totalTrades: nat
    var totalVolume: nat

    ghost predicate Valid()
      reads this, bids, asks, bids.repr, asks.repr
    {
      && bids.Valid() && asks.Valid()
      && bids.isBid && !asks.isBid
      && bids.repr !! asks.repr && this !in bids.repr && this !in asks.repr
    }

    /** The book as a value. */
    ghost function Model(): Book<Levels>
      reads this, bids, asks
    {
      Book(bids.model, asks.model, totalTrades, totalVolume)
    }

    constructor (symbol: string)
      ensures Valid() && Model() == EMPTY_LEVELS && this.symbol == symbol && fresh(bids.repr) && fresh(asks.repr)
    {
      this.symbol := symbol;
      bids := new BookSide(true);
      asks := new BookSide(false);
      totalTrades, totalVolume := 0, 0;
    }

    /** One execution against the front order of a level, reported while there is room. */
    method ExecuteTurn(lvl: PriceLevel, c: Call, rem0: nat, log0: Log)
      returns (rem: nat, log: Log, ghost f: Fill<Tag>)
      requires lvl.Valid() && lvl.queue != []
      modifies this`totalTrades, this`totalVolume, lvl, lvl.orders
      ensures lvl.Valid() && lvl.price == old(lvl.price)
      ensures f == Head(old(lvl.queue)[0], Min(rem0, old(lvl.queue)[0].qty))
      ensures rem == rem0 - f.qty && lvl.queue == AfterFront(old(lvl.queue), f.qty)
      ensures log == Record(c, log0, f)
      ensures totalTrades == old(totalTrades) + 1 && totalVolume == old(totalVolume) + f.qty
    {
      var passive := lvl.FrontOrder();
      var q := lvl.ExecuteFront(rem0);
      f := Head(passive, q);
      log := Record(c, log0, Head(passive, q));
      totalTrades := totalTrades + 1;
      totalVolume := totalVolume + q;
      rem := rem0 - q;
    }

    /** The inner loop: executes against one level until it is empty or the order is filled. */
    method ExecuteLevel(lvl: PriceLevel, isBid: bool, c: Call, rem0: nat, log0: Log)
      returns (rem: nat, log: Log, ghost fills: seq<Fill<Tag>>)
      requires lvl.Valid() && Tradable(isBid, c.order.price, lvl.queue)
      modifies this`totalTrades, this`totalVolume, lvl, lvl.orders
      ensures lvl.Valid() && lvl.price == old(lvl.price)
      ensures Match(isBid, c.order.price, old(lvl.queue), rem0) == Matched(lvl.queue, rem, fills)
      ensures Accounted(c, log0, fills, log, totalTrades - old(totalTrades), totalVolume - old(totalVolume))
      ensures lvl.queue == [] || rem == 0
    {
      rem, log, fills := rem0, log0, [];
      ghost var t0, v0 := totalTrades, totalVolume;
      ghost var whole := Match(isBid, c.order.price, lvl.queue, rem0);
      while lvl.count > 0 && rem > 0
        invariant lvl.Valid() && lvl.price == old(lvl.price)
        invariant Tradable(isBid, c.order.price, lvl.queue)
        invariant Underway(isBid, c.order.price, whole, lvl.queue, rem, fills)
        invariant Accounted(c, log0, fills, log, totalTrades - t0, totalVolume - v0)
        decreases lvl.count + rem
      {
        MatchTurn(isBid, c.order.price, whole, lvl.queue, rem, fills);
        TradableTurn(isBid, c.order.price, lvl.queue, Min(rem, lvl.queue[0].qty));
        ghost var log1 := log;
        ghost var f;
        rem, log, f := ExecuteTurn(lvl, c, rem, log);
        AccountTurn(c, log0, fills, log1, totalTrades - 1 - t0, totalVolume - f.qty - v0, f);
        fills := fills + [f];
      }
      MatchOver(isBid, c.order.price, whole, lvl.queue, rem, fills);
    }

    /** The inner loop at the best level of a side, and what it does to the side. */
    method ExecuteBest(side: BookSide, c: Call, rem0: nat, log0: Log)
      returns (rem: nat, log: Log, ghost r: Matched<Tag>)
      requires side.Valid() && this !in side.repr && side.model != []
      requires !Better(side.isBid, c.order.price, side.model[0].price)
      modifies this`totalTrades, this`totalVolume, side.pool, set l | l in side.pool :: l.orders
      ensures side.BestExecuted() && r.book == side.live[0].queue && rem == r.rem
      ensures r == Match(side.isBid, c.order.price, old(side.model)[0].orders, rem0)
      ensures Accounted(c, log0, r.fills, log, totalTrades - old(totalTrades), totalVolume - old(totalVolume))
      ensures r.book == [] || rem == 0
    {
      hide Match, Accounted, Partition, WfSide, Tradable;
      LiveDiffer(side.live, side.free, side.pool, 0);
      BestTrades(side.isBid, c.order.price, side.model, rem0);
      var best := side.levels[0];
      assert best == side.live[0] && best.Valid();
      ghost var fills;
      rem, log, fills := ExecuteLevel(best, side.isBid, c, rem0, log0);
      r := Matched(best.queue, rem, fills);
      assert forall l :: l in side.pool && l != best ==> l.Valid();
    }

    /** One turn of the outer loop: execute at the best level, then drop it if it is empty. */
    method SweepTurn(side: BookSide, c: Call, rem0: nat, log0: Log)
      returns (rem: nat, log: Log, ghost r: Matched<Tag>)
      requires side.Valid() && this !in side.repr && side.model != []
      requires !Better(side.isBid, c.order.price, side.model[0].price)
      modifies this`totalTrades, this`totalVolume, side.repr
      ensures side.Valid()
      ensures r == Match(side.isBid, c.order.price, old(side.model)[0].orders, rem0) && rem == r.rem
      ensures side.model == AfterBest(old(side.model), r)
      ensures Accounted(c, log0, r.fills, log, totalTrades - old(totalTrades), totalVolume - old(totalVolume))
      ensures r.book == [] || rem == 0
    {
      hide Match, Accounted, Partition, WfSide;
      rem, log, r := ExecuteBest(side, c, rem0, log0);
      side.SettleBest();
    }

    /** The outer loop: sweeps the passive side, best level first, up to the limit price. */
    method SweepSide(side: BookSide, c: Call, rem0: nat, log0: Log)
      returns (rem: nat, log: Log, ghost fills: seq<Fill<Tag>>)
      requires side.Valid() && this !in side.repr
      modifies this`totalTrades, this`totalVolume, side.repr
      ensures side.Valid()
      ensures Sweep(side.isBid, c.order.price, old(side.model), rem0) == Swept(side.model, rem, fills)
      ensures Accounted(c, log0, fills, log, totalTrades - old(totalTrades), totalVolume - old(totalVolume))
    {
      hide Sweep, Sweeping, Accounted, WfSide;
      rem, log, fills := rem0, log0, [];
      ghost var t0: int, v0: int := totalTrades, totalVolume;
      ghost var whole := Sweep(side.isBid, c.order.price, side.model, rem0);
      SweepStart(side.isBid, c.order.price, side.model, rem0);
      AccountStart(c, log0);
      while side.levelCount > 0 && rem > 0
        invariant side.Valid()
        invariant Sweeping(side.isBid, c.order.price, whole, side.model, rem, fills)
        invariant Accounted(c, log0, fills, log, totalTrades - t0, totalVolume - v0)
        decreases side.levelCount, rem
      {
        var best := side.levels[0];
        assert best == side.live[0] && best.price == side.model[0].price;
        if Better(side.isBid, c.order.price, best.price) {
          break;
        }
        ghost var levels, rem1, log1 := side.model, rem, log;
        ghost var t1: int, v1: int := totalTrades, totalVolume;
        ghost var r;
        rem, log, r := SweepTurn(side, c, rem, log);
        SweepOneLevel(side.isBid, c.order.price, whole, levels, rem1, fills, r);
        AccountAppend(c, log0, fills, log1, t1 - t0, v1 - v0, r.fills, log, totalTrades - t1, totalVolume - v1);
        fills := fills + r.fills;
      }
      SweepOver(side.isBid, c.order.price, whole, side.model, rem, fills);
    }

    /**
     Submits a limit order. The new book, and the reports with the trade counter, are exactly
     those of the value-level submission.
     */
    method SubmitOrder(order: ParsedOrder, max: nat, counter: nat, ts: nat) returns (log: Log)
      requires Valid()
      modifies this, bids.repr, asks.repr
      ensures Valid()
      ensures Model() == SubmitLevels(old(Model()), order, ts).book
      ensures log == RecordAll(Call(symbol, order, ts, max), Log([], counter), SubmitLevels(old(Model()), order, ts).fills)
    {
      hide Sweep, Add, Volume, TagOf;
      log := Log([], counter);
      if order.side == BUY {
        log := SubmitTo(bids, asks, Call(symbol, order, ts, max), log);
      } else if order.side == SELL {
        log := SubmitTo(asks, bids, Call(symbol, order, ts, max), log);
      }
    }

    /** Rests what is left of an order, if anything is left and a level may be used. */
    method RestResidual(own: BookSide, r: BookOrder)
      requires own.Valid()
      modifies own.repr
      ensures own.Valid()
      ensures own.model == if r.qty > 0 then Add(own.isBid, old(own.model), r) else old(own.model)
    {
      if r.qty > 0 && own.levelCount < MAX_BOOK_LEVELS {
        own.AddToBook(r);
      }
    }

    /** Sweeps the opposite side, then rests what is left on the order's own side if a level may be used. */
    method SubmitTo(own: BookSide, opposite: BookSide, c: Call, log0: Log) returns (log: Log)
      requires own.Valid() && opposite.Valid() && own.isBid != opposite.isBid
      requires own.repr !! opposite.repr && this !in own.repr && this !in opposite.repr
      modifies this`totalTrades, this`totalVolume, own.repr, opposite.repr
      ensures own.Valid() && opposite.Valid()
      ensures var q := ToUint32(c.order.quantity);
        var w := Sweep(opposite.isBid, c.order.price, old(opposite.model), q);
        && opposite.model == w.levels
        && own.model == (if w.rem > 0 then Add(own.isBid, old(own.model), Resting(c.order.price, w.rem, TagOf(c.order, c.ts)))
                         else old(own.model))
        && Accounted(c, log0, w.fills, log, totalTrades - old(totalTrades), totalVolume - old(totalVolume))
    {
      hide Sweep, Accounted;
      var rem;
      ghost var fills;
      rem, log, fills := SweepSide(opposite, c, ToUint32(c.order.quantity), log0);
      RestResidual(own, Resting(c.order.price, rem, TagOf(c.order, c.ts)));
    }
  }
}
