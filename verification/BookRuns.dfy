/**
 Submitting orders to a book, on values, and what holds over every run of submissions.
 `SubmitPlain` is the vector-based book; `SubmitLevels` is the zero-allocation book with its
 64 levels per side and 32 orders per level.
 */
module BookRuns {
  import opened PriceTime
  import opened LevelBook
  import opened Orders

  /** What the zero-allocation book records with an order. */
  datatype Tag = Tag(orderId: nat, clOrdId: string, side: int, ts: nat)

  /** What the vector-based book records with an order. */
  datatype PlainTag = PlainTag(clOrdId: string, side: int, seqNum: nat)

  type Levels = seq<Level<Tag>>
  type Entries = seq<Resting<PlainTag>>

  /** Two sides and the running totals. */
  datatype Book<+S> = Book(bids: S, asks: S, trades: nat, volume: nat) {
    function Side(isBid: bool): S {
      if isBid then bids else asks
    }

    function With(isBid: bool, own: S, opposite: S, n: nat, v: nat): Book<S> {
      if isBid then Book(own, opposite, trades + n, volume + v) else Book(opposite, own, trades + n, volume + v)
    }
  }

  datatype PlainOutcome = PlainOutcome(book: Book<Entries>, fills: seq<Fill<PlainTag>>)

  datatype LevelOutcome = LevelOutcome(book: Book<Levels>, fills: seq<Fill<Tag>>, residual: nat, dropped: bool)

  predicate HasSide(o: ParsedOrder) {
    o.side == BUY || o.side == SELL
  }

  function PlainTagOf(o: ParsedOrder): PlainTag {
    PlainTag(o.clOrdId, o.side, o.seqNum)
  }

  function TagOf(o: ParsedOrder, ts: nat): Tag {
    Tag(o.seqNum, Copy(o.clOrdId, ID_LEN), o.side, ts)
  }

  ghost function SubmitPlain(b: Book<Entries>, o: ParsedOrder): PlainOutcome {
    if !HasSide(o) then PlainOutcome(b, [])
    else
      var isBid := o.side == BUY;
      var r := Match(!isBid, o.price, b.Side(!isBid), ToUint32(o.quantity));
      var own := if r.rem > 0 then Insert(isBid, b.Side(isBid), Resting(o.price, r.rem, PlainTagOf(o)))
                 else b.Side(isBid);
      PlainOutcome(b.With(isBid, own, r.book, |r.fills|, Volume(r.fills)), r.fills)
  }

  ghost function SubmitLevels(b: Book<Levels>, o: ParsedOrder, ts: nat): LevelOutcome {
    if !HasSide(o) then LevelOutcome(b, [], 0, false)
    else
      var isBid := o.side == BUY;
      var w := Sweep(!isBid, o.price, b.Side(!isBid), ToUint32(o.quantity));
      var own := if w.rem > 0 then Add(isBid, b.Side(isBid), Resting(o.price, w.rem, TagOf(o, ts)))
                 else b.Side(isBid);
      LevelOutcome(b.With(isBid, own, w.levels, |w.fills|, Volume(w.fills)), w.fills, w.rem,
                   w.rem > 0 && !Accepts(isBid, b.Side(isBid), o.price))
  }

  // ----- Runs -----

  datatype Submission = Submission(order: ParsedOrder, ts: nat)

  const EMPTY_LEVELS: Book<Levels> := Book([], [], 0, 0)
  const EMPTY_ENTRIES: Book<Entries> := Book([], [], 0, 0)

  ghost function RunLevels(subs: seq<Submission>): Book<Levels> {
    if subs == [] then EMPTY_LEVELS
    else SubmitLevels(RunLevels(subs[..|subs| - 1]), subs[|subs| - 1].order, subs[|subs| - 1].ts).book
  }

  ghost function RunPlain(subs: seq<Submission>): Book<Entries> {
    if subs == [] then EMPTY_ENTRIES
    else SubmitPlain(RunPlain(subs[..|subs| - 1]), subs[|subs| - 1].order).book
  }

  /** What submission `i` of the run did. */
  ghost function LevelStep(subs: seq<Submission>, i: nat): LevelOutcome
    requires i < |subs|
  {
    SubmitLevels(RunLevels(subs[..i]), subs[i].order, subs[i].ts)
  }

  ghost function PlainStep(subs: seq<Submission>, i: nat): PlainOutcome
    requires i < |subs|
  {
    SubmitPlain(RunPlain(subs[..i]), subs[i].order)
  }

  lemma StepOfPrefix(subs: seq<Submission>, n: nat, i: nat)
    requires i < n <= |subs|
    ensures LevelStep(subs[..n], i) == LevelStep(subs, i)
    ensures PlainStep(subs[..n], i) == PlainStep(subs, i)
  {
    assert subs[..n][..i] == subs[..i];
  }

  // ----- Every reachable book is well formed and never crossed -----

  ghost predicate Uncrossed(b: Book<Levels>) {
    b.bids != [] && b.asks != [] ==> b.bids[0].price < b.asks[0].price
  }

  ghost predicate WfBook(b: Book<Levels>) {
    WfSide(true, b.bids) && WfSide(false, b.asks)
  }

  lemma SubmitWf(b: Book<Levels>, o: ParsedOrder, ts: nat)
    requires WfBook(b)
    ensures WfBook(SubmitLevels(b, o, ts).book)
  {
    if HasSide(o) {
      var isBid := o.side == BUY;
      var w := Sweep(!isBid, o.price, b.Side(!isBid), ToUint32(o.quantity));
      SweepWf(!isBid, o.price, b.Side(!isBid), ToUint32(o.quantity));
      if w.rem > 0 {
        AddWf(isBid, b.Side(isBid), Resting(o.price, w.rem, TagOf(o, ts)));
      }
    }
  }

  /** The best price of a side only gets worse in a sweep, and an unfinished order cannot trade with what is left. */
  lemma SweepBest(isBid: bool, limit: int, levels: Levels, rem: nat)
    requires WfSide(isBid, levels)
    ensures var w := Sweep(isBid, limit, levels, rem);
      && (w.levels != [] ==> levels != [] && !Better(isBid, w.levels[0].price, levels[0].price))
      && (w.levels != [] && w.rem > 0 ==> Better(isBid, limit, w.levels[0].price))
  {
    var w := Sweep(isBid, limit, levels, rem);
    SweepWf(isBid, limit, levels, rem);
    SweepFlat(isBid, limit, levels, rem);
    FlatIsSide(isBid, levels);
    FlatIsSide(isBid, w.levels);
    MatchInPriority(isBid, limit, Flat(levels), rem);
    MatchLeavesTail(isBid, limit, Flat(levels), rem);
    if w.levels != [] {
      var d := |Flat(levels)| - |Flat(w.levels)|;
      assert Remains(Flat(w.levels)[0], Flat(levels)[d]);
    }
  }

  /** After adding, the best level is the old best or the added price. */
  lemma AddBest(isBid: bool, levels: Levels, r: Resting<Tag>)
    ensures var a := Add(isBid, levels, r);
      a != [] ==> (levels != [] && a[0].price == levels[0].price) || a[0].price == r.price
  {
  }

  lemma SubmitUncrossed(b: Book<Levels>, o: ParsedOrder, ts: nat)
    requires WfBook(b) && Uncrossed(b)
    ensures Uncrossed(SubmitLevels(b, o, ts).book)
  {
    if HasSide(o) {
      var isBid := o.side == BUY;
      var w := Sweep(!isBid, o.price, b.Side(!isBid), ToUint32(o.quantity));
      SweepBest(!isBid, o.price, b.Side(!isBid), ToUint32(o.quantity));
      if w.rem > 0 {
        AddBest(isBid, b.Side(isBid), Resting(o.price, w.rem, TagOf(o, ts)));
      }
    }
  }

  /** Safety over all runs: well formed, never crossed, never locked, dropped residuals included. */
  lemma {:induction false} ReachableBook(subs: seq<Submission>)
    ensures WfBook(RunLevels(subs)) && Uncrossed(RunLevels(subs))
  {
    if subs != [] {
      var n := |subs| - 1;
      ReachableBook(subs[..n]);
      SubmitWf(RunLevels(subs[..n]), subs[n].order, subs[n].ts);
      SubmitUncrossed(RunLevels(subs[..n]), subs[n].order, subs[n].ts);
    }
  }

  // ----- Conservation -----

  /** What an order brings to the book: nothing unless it is a buy or a sell. */
  function Incoming(o: ParsedOrder): nat {
    if o.side == 1 || o.side == 2 then ToUint32(o.quantity) else 0
  }

  ghost function Submitted(subs: seq<Submission>): nat {
    if subs == [] then 0 else Submitted(subs[..|subs| - 1]) + Incoming(subs[|subs| - 1].order)
  }

  ghost function DroppedQty(subs: seq<Submission>): nat {
    if subs == [] then 0
    else
      DroppedQty(subs[..|subs| - 1]) + Lost(LevelStep(subs, |subs| - 1))
  }

  ghost function Lost(out: LevelOutcome): nat {
    if out.dropped then out.residual else 0
  }

  ghost function RestingQty(b: Book<Levels>): nat {
    SumQty(Flat(b.bids)) + SumQty(Flat(b.asks))
  }

  lemma SubmitConserves(b: Book<Levels>, o: ParsedOrder, ts: nat)
    requires WfBook(b)
    ensures var out := SubmitLevels(b, o, ts);
      && out.book.volume == b.volume + Volume(out.fills)
      && out.book.trades == b.trades + |out.fills|
      && Incoming(o) == out.residual + Volume(out.fills)
      && RestingQty(out.book) + Volume(out.fills) + Lost(out) == RestingQty(b) + out.residual
  {
    if HasSide(o) {
      var isBid := o.side == BUY;
      var q := ToUint32(o.quantity);
      var p := b.Side(!isBid);
      var w := Sweep(!isBid, o.price, p, q);
      SweepFlat(!isBid, o.price, p, q);
      MatchConserves(!isBid, o.price, Flat(p), q);
      if w.rem > 0 {
        var r := Resting(o.price, w.rem, TagOf(o, ts));
        AddFlat(isBid, b.Side(isBid), r);
        InsertConserves(isBid, Flat(b.Side(isBid)), r);
      }
    }
  }

  /** The number of executions over a run. */
  ghost function Executions(subs: seq<Submission>): nat {
    if subs == [] then 0 else Executions(subs[..|subs| - 1]) + |LevelStep(subs, |subs| - 1).fills|
  }

  lemma {:induction false} TradesAreExecutions(subs: seq<Submission>)
    ensures RunLevels(subs).trades == Executions(subs)
  {
    if |subs| > 0 {
      TradesAreExecutions(subs[..|subs| - 1]);
      ReachableBook(subs[..|subs| - 1]);
      SubmitConserves(RunLevels(subs[..|subs| - 1]), subs[|subs| - 1].order, subs[|subs| - 1].ts);
    }
  }

  /** The books balance: what came in is resting, traded (once on each side of every trade), or dropped. */
  ghost predicate Balanced(submitted: nat, b: Book<Levels>, dropped: nat) {
    submitted == RestingQty(b) + 2 * b.volume + dropped
  }

  lemma SubmitBalanced(b: Book<Levels>, o: ParsedOrder, ts: nat, submitted: nat, dropped: nat)
    requires WfBook(b) && Balanced(submitted, b, dropped)
    ensures var out := SubmitLevels(b, o, ts);
      Balanced(submitted + Incoming(o), out.book, dropped + Lost(out))
  {
    SubmitConserves(b, o, ts);
  }

  lemma EmptyBalanced(b: Book<Levels>)
    requires b.bids == [] && b.asks == [] && b.volume == 0
    ensures Balanced(0, b, 0)
  {
  }

  lemma RunBalancedStep(subs: seq<Submission>)
    requires subs != []
    requires var before := subs[..|subs| - 1];
      Balanced(Submitted(before), RunLevels(before), DroppedQty(before))
    ensures Balanced(Submitted(subs), RunLevels(subs), DroppedQty(subs))
  {
    var n := |subs| - 1;
    ReachableBook(subs[..n]);
    SubmitBalanced(RunLevels(subs[..n]), subs[n].order, subs[n].ts, Submitted(subs[..n]), DroppedQty(subs[..n]));
  }

  /** Conservation over every run. */
  lemma {:induction false} RunConserves(subs: seq<Submission>)
    ensures Balanced(Submitted(subs), RunLevels(subs), DroppedQty(subs))
    ensures RunLevels(subs).trades == Executions(subs)
  {
    TradesAreExecutions(subs);
    if |subs| == 0 {
      EmptyBalanced(RunLevels(subs));
    } else {
      RunConserves(subs[..|subs| - 1]);
      RunBalancedStep(subs);
    }
  }

  /**
   A residual is dropped, whole, exactly when its own side already has all 64 levels in use
   or its price level already holds 32 orders; otherwise all of it rests.
   */
  lemma DroppedExactlyWhen(b: Book<Levels>, o: ParsedOrder, ts: nat)
    requires WfBook(b) && (o.side == 1 || o.side == 2)
    ensures var out := SubmitLevels(b, o, ts);
      var isBid := o.side == 1;
      var own := b.Side(isBid);
      && (out.dropped <==>
          (&& out.residual > 0
           && (|| |own| == 64
               || exists i :: 0 <= i < |own| && own[i].price == o.price && |own[i].orders| == 32)))
      && Flat(out.book.Side(isBid)) ==
           if out.residual > 0 && !out.dropped
           then Insert(isBid, Flat(own), Resting(o.price, out.residual, Tag(o.seqNum, Copy(o.clOrdId, 31), o.side, ts)))
           else Flat(own)
  {
    var isBid := o.side == BUY;
    var own := b.Side(isBid);
    var out := SubmitLevels(b, o, ts);
    AddFlat(isBid, own, Resting(o.price, out.residual, TagOf(o, ts)));
    AcceptsExactlyWhen(isBid, own, o.price);
  }

  lemma AcceptsExactlyWhen(isBid: bool, own: Levels, price: int)
    requires WfSide(isBid, own)
    ensures !Accepts(isBid, own, price) <==>
      (|| |own| == 64
       || exists i :: 0 <= i < |own| && own[i].price == price && |own[i].orders| == 32)
  {
    var pos := Slot(isBid, own, price);
    SlotSplits(isBid, own, price, pos);
    if pos < |own| {
      assert WfLevel(own[pos]);
    }
  }

  /** An order that is neither a buy nor a sell changes nothing, in either book. */
  lemma OtherSidesIgnored(b: Book<Levels>, p: Book<Entries>, o: ParsedOrder, ts: nat)
    requires o.side != 1 && o.side != 2
    ensures SubmitLevels(b, o, ts) == LevelOutcome(b, [], 0, false) && SubmitPlain(p, o) == PlainOutcome(p, [])
  {
  }

  // ----- The vector-based book by itself: it has no capacity and drops nothing -----

  ghost predicate PlainWf(b: Book<Entries>) {
    && Sorted(true, b.bids) && Positive(b.bids) && Sorted(false, b.asks) && Positive(b.asks)
    && (b.bids != [] && b.asks != [] ==> b.bids[0].price < b.asks[0].price)
  }

  lemma PlainSubmitWf(b: Book<Entries>, o: ParsedOrder)
    requires PlainWf(b)
    ensures PlainWf(SubmitPlain(b, o).book)
  {
    if HasSide(o) {
      var isBid := o.side == BUY;
      var p, own, q := b.Side(!isBid), b.Side(isBid), ToUint32(o.quantity);
      var m := Match(!isBid, o.price, p, q);
      PlainRest(!isBid, o.price, p, q);
      if m.rem > 0 {
        var r := Resting(o.price, m.rem, PlainTagOf(o));
        InsertSorted(isBid, own, r);
        InsertConserves(isBid, own, r);
        assert Insert(isBid, own, r)[0] == r || (own != [] && Insert(isBid, own, r)[0] == own[0]);
      }
    }
  }

  /** The tail of a sorted side is sorted, and no better than the side was. */
  lemma TailKeepsOrder(isBid: bool, b: Entries, p: Entries)
    requires TailOf(b, p) && Sorted(isBid, p)
    ensures Sorted(isBid, b) && (b != [] ==> p != [] && !Better(isBid, b[0].price, p[0].price))
  {
    var d := |p| - |b|;
    assert forall i :: 0 <= i < |b| ==> Remains(b[i], p[d + i]);
  }

  /** What matching leaves of a sorted side: still sorted, no better than before, and out of an unfinished order's reach. */
  lemma PlainRest(isBid: bool, limit: int, p: Entries, q: nat)
    requires Sorted(isBid, p) && Positive(p)
    ensures var m := Match(isBid, limit, p, q);
      && Sorted(isBid, m.book) && Positive(m.book)
      && (m.book != [] ==> p != [] && !Better(isBid, m.book[0].price, p[0].price))
      && (m.book != [] && m.rem > 0 ==> Better(isBid, limit, m.book[0].price))
  {
    hide Match, Sorted, Positive, TailOf, AllExecute;
    MatchInPriority(isBid, limit, p, q);
    MatchLeavesTail(isBid, limit, p, q);
    TailKeepsOrder(isBid, Match(isBid, limit, p, q).book, p);
  }

  /** After every run the vector-based book is sorted, its quantities are positive, and it is not crossed or locked. */
  lemma {:induction false} PlainReachable(subs: seq<Submission>)
    ensures PlainWf(RunPlain(subs))
  {
    if |subs| > 0 {
      PlainReachable(subs[..|subs| - 1]);
      PlainSubmitWf(RunPlain(subs[..|subs| - 1]), subs[|subs| - 1].order);
    }
  }

  lemma PlainSubmitConserves(b: Book<Entries>, o: ParsedOrder)
    ensures var out := SubmitPlain(b, o);
      && out.book.volume == b.volume + Volume(out.fills) && out.book.trades == b.trades + |out.fills|
      && SumQty(out.book.bids) + SumQty(out.book.asks) + 2 * Volume(out.fills) ==
         SumQty(b.bids) + SumQty(b.asks) + Incoming(o)
  {
    if HasSide(o) {
      var isBid := o.side == BUY;
      var q := ToUint32(o.quantity);
      MatchConserves(!isBid, o.price, b.Side(!isBid), q);
      var m := Match(!isBid, o.price, b.Side(!isBid), q);
      if m.rem > 0 {
        InsertConserves(isBid, b.Side(isBid), Resting(o.price, m.rem, PlainTagOf(o)));
      }
    }
  }

  /** Conservation without drops: everything submitted is resting or traded. */
  lemma {:induction false} PlainConserves(subs: seq<Submission>)
    ensures var b := RunPlain(subs);
      Submitted(subs) == SumQty(b.bids) + SumQty(b.asks) + 2 * b.volume
  {
    if |subs| > 0 {
      PlainConserves(subs[..|subs| - 1]);
      PlainSubmitConserves(RunPlain(subs[..|subs| - 1]), subs[|subs| - 1].order);
    }
  }

  // ----- Refinement of the vector-based book -----

  /** An order as the two books record it: the identifier is cut to its buffer, the rest is the same. */
  predicate SameTag(a: Tag, b: PlainTag) {
    a.orderId == b.seqNum && a.side == b.side && Shortened(a.clOrdId, b.clOrdId, 31)
  }

  ghost predicate SameBook(a: Book<Levels>, b: Book<Entries>) {
    && Similar(SameTag, Flat(a.bids), b.bids)
    && Similar(SameTag, Flat(a.asks), b.asks)
    && a.trades == b.trades && a.volume == b.volume
  }

  lemma {:induction false} SimilarVolume(a: seq<Fill<Tag>>, b: seq<Fill<PlainTag>>)
    requires SimilarFills(SameTag, a, b)
    ensures Volume(a) == Volume(b)
  {
    if a != [] {
      assert SameFill(SameTag, a[0], b[0]);
      SimilarVolume(a[1..], b[1..]);
    }
  }

  lemma SubmitRefines(a: Book<Levels>, b: Book<Entries>, o: ParsedOrder, ts: nat)
    requires WfBook(a) && SameBook(a, b)
    ensures SimilarFills(SameTag, SubmitLevels(a, o, ts).fills, SubmitPlain(b, o).fills)
    ensures !SubmitLevels(a, o, ts).dropped ==> SameBook(SubmitLevels(a, o, ts).book, SubmitPlain(b, o).book)
  {
    hide Sweep, Match, Insert, Add, Flat, WfSide, Copy;
    if HasSide(o) {
      var isBid := o.side == BUY;
      var q := ToUint32(o.quantity);
      var w := Sweep(!isBid, o.price, a.Side(!isBid), q);
      SweepFlat(!isBid, o.price, a.Side(!isBid), q);
      MatchSimilar(SameTag, !isBid, o.price, Flat(a.Side(!isBid)), b.Side(!isBid), q);
      SimilarVolume(SubmitLevels(a, o, ts).fills, SubmitPlain(b, o).fills);
      if w.rem > 0 && Accepts(isBid, a.Side(isBid), o.price) {
        var x, y := Resting(o.price, w.rem, TagOf(o, ts)), Resting(o.price, w.rem, PlainTagOf(o));
        AddFlat(isBid, a.Side(isBid), x);
        InsertSimilar(SameTag, isBid, Flat(a.Side(isBid)), b.Side(isBid), x, y);
      }
    }
  }

  ghost predicate NothingDropped(subs: seq<Submission>) {
    forall i :: 0 <= i < |subs| ==> !LevelStep(subs, i).dropped
  }

  /**
   From empty books, over every run in which no residual is dropped for capacity, the two books
   hold the same orders in the same priority and have the same totals.
   */
  lemma {:induction false} RunRefines(subs: seq<Submission>)
    requires NothingDropped(subs)
    ensures SameBook(RunLevels(subs), RunPlain(subs))
  {
    if subs != [] {
      var n := |subs| - 1;
      NothingDroppedBefore(subs, n);
      RunRefines(subs[..n]);
      ReachableBook(subs[..n]);
      SubmitRefines(RunLevels(subs[..n]), RunPlain(subs[..n]), subs[n].order, subs[n].ts);
      assert !LevelStep(subs, n).dropped;
    }
  }

  lemma NothingDroppedBefore(subs: seq<Submission>, n: nat)
    requires NothingDropped(subs) && n <= |subs|
    ensures NothingDropped(subs[..n])
  {
    forall i | 0 <= i < n
      ensures !LevelStep(subs[..n], i).dropped
    {
      StepOfPrefix(subs, n, i);
    }
  }

  /** In such a run every call executes the same fills in both books. */
  lemma RunFillsRefine(subs: seq<Submission>, i: nat)
    requires NothingDropped(subs) && i < |subs|
    ensures SimilarFills(SameTag, LevelStep(subs, i).fills, PlainStep(subs, i).fills)
  {
    NothingDroppedBefore(subs, i);
    RunRefines(subs[..i]);
    ReachableBook(subs[..i]);
    SubmitRefines(RunLevels(subs[..i]), RunPlain(subs[..i]), subs[i].order, subs[i].ts);
  }
}
