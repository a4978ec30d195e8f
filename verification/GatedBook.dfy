/** What the risk gate's bounds mean for the book: quantities never wrap, and the top of book is sound. */
module GatedBook {
  import opened Basics
  import opened PriceTime
  import opened LevelBook
  import opened Orders
  import opened BookRuns
  import opened RiskGate

  ghost predicate Gated(subs: seq<Submission>) {
    forall i :: 0 <= i < |subs| ==> WithinDefaults(subs[i].order)
  }

  /** A resting order no larger and no further out than the gate lets in. */
  ghost predicate Bounded(r: Resting<Tag>) {
    0 < r.qty <= 50_000 && 30_000_000 <= r.price <= 40_000_000
  }

  ghost predicate AllBounded(s: seq<Resting<Tag>>) {
    forall i :: 0 <= i < |s| ==> Bounded(s[i])
  }

  ghost predicate BoundedBook(b: Book<Levels>) {
    AllBounded(Flat(b.bids)) && AllBounded(Flat(b.asks))
  }

  lemma {:induction false} MatchBounded(isBid: bool, limit: int, book: seq<Resting<Tag>>, rem: nat)
    requires AllBounded(book)
    ensures AllBounded(Match(isBid, limit, book, rem).book) && Match(isBid, limit, book, rem).rem <= rem
  {
    if book == [] || rem == 0 || Better(isBid, limit, book[0].price) {
    } else {
      assert Bounded(book[0]);
      var q := Min(rem, book[0].qty);
      if q == book[0].qty {
        MatchBounded(isBid, limit, book[1..], rem - q);
      } else {
        assert Bounded(Reduce(book[0], q));
      }
    }
  }

  lemma InsertBounded(isBid: bool, book: seq<Resting<Tag>>, r: Resting<Tag>)
    requires AllBounded(book) && Bounded(r)
    ensures AllBounded(Insert(isBid, book, r))
  {
  }

  lemma SubmitBounded(b: Book<Levels>, o: ParsedOrder, ts: nat)
    requires WfBook(b) && BoundedBook(b) && WithinDefaults(o)
    ensures BoundedBook(SubmitLevels(b, o, ts).book)
  {
    if HasSide(o) {
      var isBid := o.side == BUY;
      var p, own, q := b.Side(!isBid), b.Side(isBid), ToUint32(o.quantity);
      var w := Sweep(!isBid, o.price, p, q);
      SweepFlat(!isBid, o.price, p, q);
      MatchBounded(!isBid, o.price, Flat(p), q);
      if w.rem > 0 {
        var r := Resting(o.price, w.rem, TagOf(o, ts));
        AddFlat(isBid, own, r);
        InsertBounded(isBid, Flat(own), r);
      }
    }
  }

  lemma {:induction false} RunBounded(subs: seq<Submission>)
    requires Gated(subs)
    ensures BoundedBook(RunLevels(subs))
  {
    if |subs| > 0 {
      var n := |subs| - 1;
      RunBounded(subs[..n]);
      ReachableBook(subs[..n]);
      SubmitBounded(RunLevels(subs[..n]), subs[n].order, subs[n].ts);
    }
  }

  lemma {:induction false} SumBound(s: seq<Resting<Tag>>)
    requires AllBounded(s)
    ensures |s| <= SumQty(s) <= 50_000 * |s|
  {
    if s != [] {
      assert Bounded(s[0]);
      SumBound(s[1..]);
    }
  }

  /** Every order of level `i` is an order of the flattened side. */
  lemma {:induction false} LevelInFlat(levels: Levels, i: nat)
    requires i < |levels| && AllBounded(Flat(levels))
    ensures AllBounded(levels[i].orders)
  {
    var a, rest := levels[0].orders, Flat(levels[1..]);
    assert Flat(levels) == a + rest;
    assert forall k :: 0 <= k < |a| ==> a[k] == Flat(levels)[k];
    assert forall k :: 0 <= k < |rest| ==> rest[k] == Flat(levels)[|a| + k];
    if i > 0 {
      LevelInFlat(levels[1..], i - 1);
    }
  }

  /** The 32-bit cached quantity of a level holding `orders`. */
  ghost function Cached(orders: seq<Resting<Tag>>): nat {
    SumQty(orders) % TWO_32
  }

  /** After any run of gated orders, no level's cached quantity wraps: it is the sum, and at most 1,600,000. */
  lemma CachedIsExact(subs: seq<Submission>, isBid: bool, i: nat)
    requires Gated(subs) && i < |RunLevels(subs).Side(isBid)|
    ensures var l := RunLevels(subs).Side(isBid)[i];
      Cached(l.orders) == SumQty(l.orders) && 0 < SumQty(l.orders) <= 1_600_000
  {
    hide RunLevels, SumQty, Flat;
    RunBounded(subs);
    ReachableBook(subs);
    var levels := RunLevels(subs).Side(isBid);
    assert WfLevel(levels[i]);
    LevelInFlat(levels, i);
    SumBound(levels[i].orders);
  }

  // ----- Top of book -----

  datatype Depth = Depth(price: int, qty: nat, count: nat)

  datatype TopOfBook = TopOfBook(bidPrice: int, bidQty: nat, askPrice: int, askQty: nat, spread: int,
                                 bidDepth: seq<Depth>, askDepth: seq<Depth>)

  const DECK: nat := 5

  ghost function DepthOf(l: Level<Tag>): Depth {
    Depth(l.price, Cached(l.orders), |l.orders|)
  }

  ghost function Deck(levels: Levels): (d: seq<Depth>)
    ensures |d| == Min(|levels|, DECK)
    ensures forall i :: 0 <= i < |d| ==> d[i] == DepthOf(levels[i])
  {
    seq(Min(|levels|, DECK), i requires 0 <= i < |levels| => DepthOf(levels[i]))
  }

  function Spread(bid: int, ask: int): int {
    if bid > 0 && ask > 0 then (if ask >= bid then ask - bid else 0) else 0
  }

  ghost function BestPrice(levels: Levels): int {
    if levels == [] then 0 else levels[0].price
  }

  ghost function BestQty(levels: Levels): nat {
    if levels == [] then 0 else Cached(levels[0].orders)
  }

  ghost function TopOf(b: Book<Levels>): TopOfBook {
    TopOfBook(BestPrice(b.bids), BestQty(b.bids), BestPrice(b.asks), BestQty(b.asks),
              Spread(BestPrice(b.bids), BestPrice(b.asks)), Deck(b.bids), Deck(b.asks))
  }

  /** The best levels, at most five, with their 32-bit quantities; prices strictly worsen down the deck. */
  ghost predicate OrderedDeck(isBid: bool, levels: Levels, d: seq<Depth>) {
    && |d| == Min(|levels|, 5)
    && (forall i :: 0 <= i < |d| ==>
          && d[i].price == levels[i].price && d[i].count == |levels[i].orders|
          && d[i].qty == SumQty(levels[i].orders) % 0x1_0000_0000)
    && (forall i, j :: 0 <= i < j < |d| ==> if isBid then d[i].price > d[j].price else d[i].price < d[j].price)
    && (forall i :: 0 <= i < |d| ==> 1 <= d[i].count <= 32)
  }

  /** What rests at a price. */
  ghost function QtyAt(s: seq<Resting<Tag>>, price: int): nat {
    if s == [] then 0 else (if s[0].price == price then s[0].qty else 0) + QtyAt(s[1..], price)
  }

  /** `price` is the best one resting on the side and `qty` what rests there, as 32 bits; an empty side shows zeros. */
  ghost predicate ShowsBest(isBid: bool, s: seq<Resting<Tag>>, price: int, qty: nat) {
    if s == [] then price == 0 && qty == 0
    else
      && (exists k :: 0 <= k < |s| && s[k].price == price)
      && (forall k :: 0 <= k < |s| ==> if isBid then s[k].price <= price else s[k].price >= price)
      && qty == QtyAt(s, price) % 0x1_0000_0000
  }

  lemma {:induction false} QtyAtAppend(a: seq<Resting<Tag>>, b: seq<Resting<Tag>>, price: int)
    ensures QtyAt(a + b, price) == QtyAt(a, price) + QtyAt(b, price)
  {
    if a == [] {
      assert a + b == b;
    } else {
      assert (a + b)[1..] == a[1..] + b;
      QtyAtAppend(a[1..], b, price);
    }
  }

  lemma {:induction false} QtyAllAt(s: seq<Resting<Tag>>, price: int)
    ensures (forall k :: 0 <= k < |s| ==> s[k].price == price) ==> QtyAt(s, price) == SumQty(s)
    ensures (forall k :: 0 <= k < |s| ==> s[k].price != price) ==> QtyAt(s, price) == 0
  {
    if s != [] {
      QtyAllAt(s[1..], price);
    }
  }

  /** The first level holds everything that rests at its price, and its price is the best. */
  lemma BestLevel(isBid: bool, levels: Levels)
    requires WfSide(isBid, levels) && levels != []
    ensures Flat(levels) != [] && Flat(levels)[0].price == levels[0].price
    ensures forall k :: 0 <= k < |Flat(levels)| ==> !Better(isBid, Flat(levels)[k].price, levels[0].price)
    ensures QtyAt(Flat(levels), levels[0].price) == SumQty(levels[0].orders)
  {
    var price := levels[0].price;
    FlatIsSide(isBid, levels);
    WfTail(isBid, levels);
    var a, b := levels[0].orders, Flat(levels[1..]);
    assert WfLevel(levels[0]);
    forall k | 0 <= k < |b|
      ensures Better(isBid, price, b[k].price)
    {
      BehindFirst(isBid, levels, k);
    }
    QtyAtAppend(a, b, price);
    QtyAllAt(a, price);
    QtyAllAt(b, price);
    assert Flat(levels) == a + b;
  }

  lemma ShownIsBest(isBid: bool, levels: Levels)
    requires WfSide(isBid, levels)
    ensures ShowsBest(isBid, Flat(levels), BestPrice(levels), BestQty(levels))
  {
    FlatIsSide(isBid, levels);
    if levels != [] {
      BestLevel(isBid, levels);
    }
  }

  lemma DeckIsOrdered(isBid: bool, levels: Levels)
    requires WfSide(isBid, levels)
    ensures OrderedDeck(isBid, levels, Deck(levels))
    ensures levels != [] ==> Deck(levels)[0].price == BestPrice(levels) && Deck(levels)[0].qty == BestQty(levels)
  {
    assert forall i :: 0 <= i < |levels| ==> WfLevel(levels[i]);
  }

  /**
   The snapshot after any run of submissions, gated or not: each side shows its best price and
   what rests there, first in its deck; both decks are strictly ordered; and between positive best
   prices the spread is the true, positive difference, so its clamp to zero is never reached.
   */
  lemma TopOfBookIsOrdered(subs: seq<Submission>)
    ensures var b := RunLevels(subs);
      var t := TopOf(b);
      && ShowsBest(true, Flat(b.bids), t.bidPrice, t.bidQty) && ShowsBest(false, Flat(b.asks), t.askPrice, t.askQty)
      && OrderedDeck(true, b.bids, t.bidDepth) && OrderedDeck(false, b.asks, t.askDepth)
      && (b.bids != [] ==> t.bidDepth[0].price == t.bidPrice && t.bidDepth[0].qty == t.bidQty)
      && (b.asks != [] ==> t.askDepth[0].price == t.askPrice && t.askDepth[0].qty == t.askQty)
      && (t.bidPrice > 0 && t.askPrice > 0 ==> t.spread == t.askPrice - t.bidPrice > 0)
      && (t.bidPrice <= 0 || t.askPrice <= 0 ==> t.spread == 0)
  {
    hide RunLevels, ShowsBest, OrderedDeck, WfSide, Cached;
    ReachableBook(subs);
    var b := RunLevels(subs);
    ShownIsBest(true, b.bids);
    ShownIsBest(false, b.asks);
    DeckIsOrdered(true, b.bids);
    DeckIsOrdered(false, b.asks);
  }

  /** An ordered deck whose rows all show the true quantity, within the gate's bound. */
  ghost predicate SoundDeck(isBid: bool, levels: Levels, d: seq<Depth>) {
    && OrderedDeck(isBid, levels, d)
    && (forall i :: 0 <= i < |d| ==> d[i].qty == SumQty(levels[i].orders) && 0 < d[i].qty <= 1_600_000)
  }

  lemma DeckIsSound(subs: seq<Submission>, isBid: bool)
    requires Gated(subs)
    ensures var levels := RunLevels(subs).Side(isBid);
      && (OrderedDeck(isBid, levels, Deck(levels)) ==> SoundDeck(isBid, levels, Deck(levels)))
      && BestQty(levels) == QtyAt(Flat(levels), BestPrice(levels))
  {
    hide RunLevels, SumQty, Flat, QtyAt, WfSide;
    ReachableBook(subs);
    var levels := RunLevels(subs).Side(isBid);
    forall i | 0 <= i < |Deck(levels)|
      ensures Deck(levels)[i].qty == SumQty(levels[i].orders) && 0 < SumQty(levels[i].orders) <= 1_600_000
    {
      CachedIsExact(subs, isBid, i);
    }
    if levels == [] {
      NothingRests(levels);
    } else {
      BestLevel(isBid, levels);
      CachedIsExact(subs, isBid, 0);
    }
  }

  lemma NothingRests(levels: Levels)
    requires levels == []
    ensures QtyAt(Flat(levels), 0) == 0
  {
  }

  /**
   The snapshot after any run of gated orders: both decks are sound, the best quantities are what
   rests at the best prices, and with both sides present the spread is the true, positive
   difference.
   */
  lemma TopOfBookIsSound(subs: seq<Submission>)
    requires Gated(subs)
    ensures var b := RunLevels(subs);
      var t := TopOf(b);
      && SoundDeck(true, b.bids, t.bidDepth) && SoundDeck(false, b.asks, t.askDepth)
      && t.bidQty == QtyAt(Flat(b.bids), t.bidPrice) && t.askQty == QtyAt(Flat(b.asks), t.askPrice)
      && (b.bids != [] && b.asks != [] ==> t.spread == t.askPrice - t.bidPrice > 0)
  {
    hide RunLevels, SoundDeck, OrderedDeck, QtyAt, Cached, ShowsBest;
    TopOfBookIsOrdered(subs);
    DeckIsSound(subs, true);
    DeckIsSound(subs, false);
    BestIsBounded(subs, true);
    BestIsBounded(subs, false);
  }

  lemma BestIsBounded(subs: seq<Submission>, isBid: bool)
    requires Gated(subs)
    ensures var levels := RunLevels(subs).Side(isBid);
      levels != [] ==> 30_000_000 <= levels[0].price <= 40_000_000
  {
    ReachableBook(subs);
    RunBounded(subs);
    var levels := RunLevels(subs).Side(isBid);
    if levels != [] {
      FlatIsSide(isBid, levels);
      assert Bounded(Flat(levels)[0]);
    }
  }
}
