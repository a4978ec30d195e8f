/** The vector-based matching book and the multi-symbol engine that routes orders to such books. */
module MatchingEngines {
  import opened Basics
  import opened PriceTime
  import opened Orders
  import opened BookRuns
  import opened Reports

  class MatchingBook {
    const symbol: string
    var bids: Entries
    var asks: Entries
    var totalTrades: nat
    var totalVolume: nat

    ghost function Model(): Book<Entries>
      reads this
    {
      Book(bids, asks, totalTrades, totalVolume)
    }

    constructor (symbol: string)
      ensures Model() == EMPTY_ENTRIES && this.symbol == symbol
    {
      this.symbol := symbol;
      bids, asks, totalTrades, totalVolume := [], [], 0, 0;
    }

    /** The matching loop over one side; the caller stores the side that is left. */
    method MatchAgainst(isBid: bool, side0: Entries, c: Call, counter0: nat)
      returns (side: Entries, rem: nat, trades: seq<Trade>, counter: nat, ghost fills: seq<Fill<PlainTag>>)
      modifies this`totalTrades, this`totalVolume
      ensures Match(isBid, c.order.price, side0, ToUint32(c.order.quantity)) == Matched(side, rem, fills)
      ensures trades == PlainTrades(c, fills, counter0) && counter == counter0 + |fills|
      ensures totalTrades == old(totalTrades) + |fills| && totalVolume == old(totalVolume) + Volume(fills)
    {
      hide Match, Underway, PlainTrades, Volume;
      side, rem, trades, counter, fills := side0, ToUint32(c.order.quantity), [], counter0, [];
      ghost var whole := Match(isBid, c.order.price, side, rem);
      MatchStart(isBid, c.order.price, side, rem);
      NoPlainTrades(c, counter);
      while side != [] && rem > 0
        invariant Underway(isBid, c.order.price, whole, side, rem, fills)
        invariant trades == PlainTrades(c, fills, counter0) && counter == counter0 + |fills|
        invariant totalTrades == old(totalTrades) + |fills| && totalVolume == old(totalVolume) + Volume(fills)
        decreases |side|, rem
      {
        var best := side[0];
        ghost var was := side;
        if Better(isBid, c.order.price, best.price) {
          break;
        }
        MatchTurn(isBid, c.order.price, whole, side, rem, fills);
        var q := Min(rem, best.qty);
        var f := Head(best, q);
        counter := counter + 1;
        trades := trades + [PlainTradeOf(c, f, counter)];
        totalTrades := totalTrades + 1;
        totalVolume := totalVolume + q;
        rem := rem - q;
        side := side[0 := Reduce(best, q)];
        if side[0].qty == 0 {
          side := side[1..];
        }
        assert side == AfterFront(was, q);
        VolumeSnoc(fills, f);
        PlainTradesSnoc(c, fills, f, counter0);
        fills := fills + [f];
      }
      MatchOver(isBid, c.order.price, whole, side, rem, fills);
    }

    method SubmitOrder(order: ParsedOrder, counter0: nat, ts: nat)
      returns (matched: bool, trades: seq<Trade>, counter: nat)
      modifies this
      ensures var out := SubmitPlain(old(Model()), order);
        && Model() == out.book
        && trades == PlainTrades(Call(symbol, order, ts, 0), out.fills, counter0)
        && counter == counter0 + |out.fills|
        && matched == (out.fills != [])
    {
      trades, counter := [], counter0;
      var rem;
      ghost var fills;
      if order.side == BUY {
        asks, rem, trades, counter, fills := MatchAgainst(false, asks, Call(symbol, order, ts, 0), counter0);
        if rem > 0 {
          bids := Insert(true, bids, Resting(order.price, rem, PlainTagOf(order)));
        }
      } else if order.side == SELL {
        bids, rem, trades, counter, fills := MatchAgainst(true, bids, Call(symbol, order, ts, 0), counter0);
        if rem > 0 {
          asks := Insert(false, asks, Resting(order.price, rem, PlainTagOf(order)));
        }
      }
      matched := trades != [];
    }
  }

  // ----- Routing by symbol -----

  type Books = map<string, Book<Entries>>

  function SymbolOf(o: ParsedOrder): string {
    if o.symbol == "" then "PETR4" else o.symbol
  }

  function BookFor(m: Books, s: string): Book<Entries> {
    if s in m then m[s] else EMPTY_ENTRIES
  }

  ghost function Route(m: Books, o: ParsedOrder): Books {
    m[SymbolOf(o) := SubmitPlain(BookFor(m, SymbolOf(o)), o).book]
  }

  ghost function RunEngine(subs: seq<Submission>): Books {
    if subs == [] then map[] else Route(RunEngine(subs[..|subs| - 1]), subs[|subs| - 1].order)
  }

  /** An order belongs to its own symbol; one without a symbol belongs to PETR4. */
  predicate Belongs(o: ParsedOrder, s: string) {
    if o.symbol == "" then s == "PETR4" else s == o.symbol
  }

  /** An order changes the book of the symbol it belongs to, into its submission, and no other book. */
  lemma RouteChangesOneBook(m: Books, o: ParsedOrder, s: string)
    ensures BookFor(Route(m, o), s) == if Belongs(o, s) then SubmitPlain(BookFor(m, s), o).book else BookFor(m, s)
    ensures s in Route(m, o) <==> s in m || Belongs(o, s)
  {
  }

  /** The submissions for one symbol, in order. */
  ghost function For(subs: seq<Submission>, s: string): seq<Submission> {
    if subs == [] then []
    else
      var rest := For(subs[..|subs| - 1], s);
      if Belongs(subs[|subs| - 1].order, s) then rest + [subs[|subs| - 1]] else rest
  }

  lemma RunPlainSnoc(subs: seq<Submission>, x: Submission)
    ensures RunPlain(subs + [x]) == SubmitPlain(RunPlain(subs), x.order).book
  {
    assert (subs + [x])[..|subs|] == subs;
  }

  /** Symbols do not interfere: each book is what it would be had only its own orders been submitted. */
  lemma {:induction false} BooksAreIndependent(subs: seq<Submission>, s: string)
    ensures BookFor(RunEngine(subs), s) == RunPlain(For(subs, s))
  {
    if |subs| > 0 {
      var n := |subs| - 1;
      BooksAreIndependent(subs[..n], s);
      if Belongs(subs[n].order, s) {
        RunPlainSnoc(For(subs[..n], s), subs[n]);
      }
    }
  }

  /** Trades over all books. */
  ghost function TradesOf(m: Books): nat
    decreases |m|
  {
    if m == map[] then 0 else
      var s :| s in m;
      m[s].trades + TradesOf(m - {s})
  }

  /** The total does not depend on the order in which books are visited. */
  lemma {:induction false} TradesOfSplit(m: Books, s: string)
    requires s in m
    ensures TradesOf(m) == m[s].trades + TradesOf(m - {s})
    decreases |m|
  {
    var t :| t in m && TradesOf(m) == m[t].trades + TradesOf(m - {t});
    if t != s {
      TradesOfSplit(m - {t}, s);
      TradesOfSplit(m - {s}, t);
      assert m - {t} - {s} == m - {s} - {t};
    }
  }

  /** Replacing one book changes the total by the difference of the two. */
  lemma TradesOfReplace(m: Books, s: string, b: Book<Entries>)
    ensures TradesOf(m[s := b]) + BookFor(m, s).trades == TradesOf(m) + b.trades
  {
    var m' := m[s := b];
    TradesOfSplit(m', s);
    if s in m {
      TradesOfSplit(m, s);
      assert m' - {s} == m - {s};
    } else {
      assert m' - {s} == m;
    }
  }

  lemma Overwrite(m: Books, s: string, a: Book<Entries>, b: Book<Entries>)
    ensures m[s := a][s := b] == m[s := b]
  {
  }

  /** A submission adds its executions to its book's total. */
  lemma PlainCounts(b: Book<Entries>, o: ParsedOrder)
    ensures SubmitPlain(b, o).book.trades == b.trades + |SubmitPlain(b, o).fills|
  {
  }

  /** With a book for `s` in place, empty if it is new, the total stays. */
  lemma EnsuredTotal(m: Books, s: string)
    ensures TradesOf(m[s := BookFor(m, s)]) == TradesOf(m)
  {
    TradesOfReplace(m, s, BookFor(m, s));
  }

  lemma OneBookChanged(m: Books, m': Books, s: string, b: Book<Entries>)
    requires m'.Keys == m.Keys + {s} && m'[s] == b
    requires forall t :: t in m && t != s ==> m'[t] == m[t]
    ensures m' == m[s := b]
  {
  }

  class MatchingEngine {
    var books: map<string, MatchingBook>
    var tradeCounter: nat

    /** One book object per symbol, and the global counter has numbered every trade of every book. */
    ghost predicate Valid()
      reads this, books.Values
    {
      && (forall s, t :: s in books && t in books && s != t ==> books[s] != books[t])
      && (forall s :: s in books ==> books[s].symbol == s)
      && TradesOf(Model()) == tradeCounter
    }

    ghost function Model(): Books
      reads this, books.Values
    {
      map s | s in books :: books[s].Model()
    }

    constructor ()
      ensures Valid() && Model() == map[]
    {
      books, tradeCounter := map[], 0;
    }

    /** Makes sure the symbol has a book. */
    method Ensure(s: string)
      requires Valid()
      modifies this`books
      ensures Valid() && s in books && Model() == old(Model())[s := BookFor(old(Model()), s)]
      ensures fresh(books[s]) || books[s] in old(books.Values)
    {
      hide TradesOf;
      ghost var m := Model();
      EnsuredTotal(m, s);
      if s !in books {
        var b := new MatchingBook(s);
        books := books[s := b];
      }
      OneBookChanged(m, Model(), s, BookFor(m, s));
    }

    /** Submits to the book of a symbol that has one. */
    method Deliver(s: string, order: ParsedOrder, ts: nat) returns (matched: bool, trades: seq<Trade>)
      requires Valid() && s in books
      modifies this`tradeCounter, books[s]
      ensures Valid()
      ensures var out := SubmitPlain(old(Model())[s], order);
        && Model() == old(Model())[s := out.book]
        && trades == PlainTrades(Call(s, order, ts, 0), out.fills, old(tradeCounter))
        && tradeCounter == old(tradeCounter) + |out.fills|
        && matched == (out.fills != [])
    {
      hide TradesOf, SubmitPlain, PlainTrades;
      ghost var m := Model();
      ghost var out := SubmitPlain(m[s], order);
      TradesOfReplace(m, s, out.book);
      PlainCounts(m[s], order);
      var b := books[s];
      matched, trades, tradeCounter := b.SubmitOrder(order, tradeCounter, ts);
      assert forall t :: t in books && t != s ==> books[t].Model() == m[t];
      OneBookChanged(m, Model(), s, out.book);
    }

    /** Routes an order to the book of its symbol, creating it on first use. */
    method ProcessOrder(order: ParsedOrder, ts: nat) returns (matched: bool, trades: seq<Trade>)
      requires Valid()
      modifies this, books.Values
      ensures Valid()
      ensures Model() == Route(old(Model()), order)
      ensures var s := if order.symbol == "" then "PETR4" else order.symbol;
        var fills := SubmitPlain(BookFor(old(Model()), s), order).fills;
        && trades == PlainTrades(Call(s, order, ts, 0), fills, old(tradeCounter))
        && tradeCounter == old(tradeCounter) + |fills|
        && matched == (fills != [])
    {
      var s := SymbolOf(order);
      ghost var m := Model();
      Ensure(s);
      assert Model()[s] == BookFor(m, s);
      matched, trades := Deliver(s, order, ts);
      Overwrite(m, s, BookFor(m, s), SubmitPlain(BookFor(m, s), order).book);
    }

    /** Sums the books' totals; the sum is the number of trade identifiers handed out. */
    method TotalTrades() returns (count: nat)
      requires Valid()
      ensures count == tradeCounter
    {
      count := 0;
      var keys := books.Keys;
      ghost var left := Model();
      while keys != {}
        invariant keys == left.Keys <= books.Keys && forall s :: s in left ==> left[s] == books[s].Model()
        invariant count + TradesOf(left) == tradeCounter
        decreases keys
      {
        var s :| s in keys;
        TradesOfSplit(left, s);
        count := count + books[s].totalTrades;
        keys := keys - {s};
        left := left - {s};
      }
    }
  }
}
