/**
 Where the orders of a book come from, and in which order they trade: each resting order belongs
 to one submission, and submissions are served by price, then by arrival. Generic in what a book
 records, so that both books are covered.
 */
module OrderOrigins {
  import opened Basics
  import opened PriceTime
  import opened LevelBook
  import opened Orders
  import opened BookRuns

  // ----- Where resting orders come from -----

  /** How a book records a submission beside price and quantity. */
  type Recorded<!T> = (Submission, T) -> bool

  /** The zero-allocation book: identifiers cut to 31 characters. */
  predicate AsTag(s: Submission, t: Tag) {
    && t.orderId == s.order.seqNum && t.side == s.order.side && t.ts == s.ts
    && Shortened(t.clOrdId, s.order.clOrdId, 31)
  }

  /** The vector-based book: identifiers in full. */
  predicate AsPlainTag(s: Submission, t: PlainTag) {
    t.clOrdId == s.order.clOrdId && t.side == s.order.side && t.seqNum == s.order.seqNum
  }

  /** `r` is what is left of submission `s`, resting on the right side. */
  predicate LeftOf<T>(rec: Recorded<T>, s: Submission, isBid: bool, r: Resting<T>) {
    && s.order.side == (if isBid then 1 else 2)
    && rec(s, r.tag) && r.price == s.order.price
    && 0 < r.qty <= ToUint32(s.order.quantity)
  }

  ghost predicate AllLeft<T(!new)>(rec: Recorded<T>, subs: seq<Submission>, isBid: bool, s: seq<Resting<T>>, idx: seq<nat>) {
    && |idx| == |s|
    && forall k :: 0 <= k < |s| ==> idx[k] < |subs| && LeftOf(rec, subs[idx[k]], isBid, s[k])
  }

  /** No submission rests twice, and within a price earlier submissions come first. */
  ghost predicate Queued<T(!new)>(s: seq<Resting<T>>, idx: seq<nat>) {
    && |idx| == |s|
    && forall i, j :: 0 <= i < j < |s| ==> idx[i] != idx[j] && (s[i].price == s[j].price ==> idx[i] < idx[j])
  }

  /** The order at position `k` of the side is what is left of submission `idx[k]`. */
  ghost predicate Origins<T(!new)>(rec: Recorded<T>, subs: seq<Submission>, isBid: bool, s: seq<Resting<T>>, idx: seq<nat>) {
    AllLeft(rec, subs, isBid, s, idx) && Queued(s, idx)
  }

  ghost predicate HaveOrigins<T(!new)>(rec: Recorded<T>, subs: seq<Submission>, isBid: bool, s: seq<Resting<T>>) {
    exists idx :: Origins(rec, subs, isBid, s, idx)
  }

  lemma TailOrigins<T(!new)>(rec: Recorded<T>, subs: seq<Submission>, n: nat, isBid: bool, b: seq<Resting<T>>, book: seq<Resting<T>>)
    requires n <= |subs| && HaveOrigins(rec, subs[..n], isBid, book) && TailOf(b, book) && Positive(b)
    ensures HaveOrigins(rec, subs, isBid, b)
  {
    hide AllLeft, Queued;
    var idx :| Origins(rec, subs[..n], isBid, book, idx);
    var rest := TailLeft(rec, subs, n, isBid, b, book, idx);
    assert Origins(rec, subs, isBid, b, rest);
  }

  lemma TailLeft<T(!new)>(rec: Recorded<T>, subs: seq<Submission>, n: nat, isBid: bool, b: seq<Resting<T>>, book: seq<Resting<T>>, idx: seq<nat>)
    returns (rest: seq<nat>)
    requires n <= |subs| && Origins(rec, subs[..n], isBid, book, idx) && TailOf(b, book) && Positive(b)
    ensures AllLeft(rec, subs, isBid, b, rest) && Queued(b, rest)
  {
    hide LeftOf;
    var d := |book| - |b|;
    rest := idx[d..];
    forall k | 0 <= k < |b|
      ensures rest[k] < |subs| && LeftOf(rec, subs[rest[k]], isBid, b[k])
    {
      assert Remains(b[k], book[d + k]);
      StillLeft(rec, subs, n, isBid, book, idx, d + k, b[k]);
    }
    TailQueued(b, book, idx);
  }

  lemma TailQueued<T(!new)>(b: seq<Resting<T>>, book: seq<Resting<T>>, idx: seq<nat>)
    requires Queued(book, idx) && TailOf(b, book)
    ensures Queued(b, idx[|book| - |b|..])
  {
    var d := |book| - |b|;
    var rest := idx[d..];
    forall i, j | 0 <= i < j < |b|
      ensures rest[i] != rest[j] && (b[i].price == b[j].price ==> rest[i] < rest[j])
    {
      assert Remains(b[i], book[d + i]) && Remains(b[j], book[d + j]);
      QueuedAt(book, idx, d + i, d + j);
    }
  }

  lemma QueuedAt<T(!new)>(s: seq<Resting<T>>, idx: seq<nat>, i: nat, j: nat)
    requires Queued(s, idx) && i < j < |s|
    ensures idx[i] != idx[j] && (s[i].price == s[j].price ==> idx[i] < idx[j])
  {
  }

  lemma StillLeft<T(!new)>(rec: Recorded<T>, subs: seq<Submission>, n: nat, isBid: bool, book: seq<Resting<T>>, idx: seq<nat>, k: nat,
                  r: Resting<T>)
    requires n <= |subs| && AllLeft(rec, subs[..n], isBid, book, idx) && k < |book|
    requires Remains(r, book[k]) && r.qty > 0
    ensures idx[k] < n && LeftOf(rec, subs[idx[k]], isBid, r)
  {
    assert LeftOf(rec, subs[..n][idx[k]], isBid, book[k]);
  }

  lemma InsertOrigins<T(!new)>(rec: Recorded<T>, subs: seq<Submission>, n: nat, isBid: bool, book: seq<Resting<T>>, r: Resting<T>)
    requires n < |subs| && HaveOrigins(rec, subs[..n], isBid, book) && Sorted(isBid, book) && LeftOf(rec, subs[n], isBid, r)
    ensures HaveOrigins(rec, subs, isBid, Insert(isBid, book, r))
  {
    hide LeftOf, Queued;
    var idx :| Origins(rec, subs[..n], isBid, book, idx);
    var pos := UpperBound(isBid, book, r.price);
    InsertQueued(isBid, book, r, idx, n);
    InsertLeft(rec, subs, n, isBid, book, r, idx);
    assert Origins(rec, subs, isBid, Insert(isBid, book, r), idx[..pos] + [n] + idx[pos..]);
  }

  lemma InsertLeft<T(!new)>(rec: Recorded<T>, subs: seq<Submission>, n: nat, isBid: bool, book: seq<Resting<T>>, r: Resting<T>, idx: seq<nat>)
    requires n < |subs| && AllLeft(rec, subs[..n], isBid, book, idx) && LeftOf(rec, subs[n], isBid, r)
    ensures var pos := UpperBound(isBid, book, r.price);
      AllLeft(rec, subs, isBid, Insert(isBid, book, r), idx[..pos] + [n] + idx[pos..])
  {
    hide LeftOf;
    var pos := UpperBound(isBid, book, r.price);
    var b, idx' := Insert(isBid, book, r), idx[..pos] + [n] + idx[pos..];
    forall k | 0 <= k < |b|
      ensures idx'[k] < |subs| && LeftOf(rec, subs[idx'[k]], isBid, b[k])
    {
      if k != pos {
        var k' := if k < pos then k else k - 1;
        assert idx'[k] == idx[k'] && b[k] == book[k'];
        assert LeftOf(rec, subs[..n][idx[k']], isBid, book[k']) && subs[..n][idx[k']] == subs[idx[k']];
      }
    }
  }

  lemma InsertQueued<T(!new)>(isBid: bool, book: seq<Resting<T>>, r: Resting<T>, idx: seq<nat>, n: nat)
    requires Sorted(isBid, book) && Queued(book, idx) && forall k :: 0 <= k < |idx| ==> idx[k] < n
    ensures var pos := UpperBound(isBid, book, r.price);
      Queued(Insert(isBid, book, r), idx[..pos] + [n] + idx[pos..])
  {
    hide Sorted, Queued;
    BehindUpperBound(isBid, book, r.price);
    SpliceQueued(book, UpperBound(isBid, book, r.price), r, idx, n);
  }

  lemma SpliceQueued<T(!new)>(book: seq<Resting<T>>, pos: nat, r: Resting<T>, idx: seq<nat>, n: nat)
    requires pos <= |book| && Queued(book, idx) && forall k :: 0 <= k < |idx| ==> idx[k] < n
    requires forall k :: pos <= k < |book| ==> book[k].price != r.price
    ensures Queued(Splice(book, pos, r), Splice(idx, pos, n))
  {
    var b, idx' := Splice(book, pos, r), Splice(idx, pos, n);
    forall i, j | 0 <= i < j < |b|
      ensures idx'[i] != idx'[j] && (b[i].price == b[j].price ==> idx'[i] < idx'[j])
    {
      SplicedPair(book, pos, r, idx, n, i, j);
    }
  }

  lemma SplicedPair<T(!new)>(book: seq<Resting<T>>, pos: nat, r: Resting<T>, idx: seq<nat>, n: nat, i: nat, j: nat)
    requires pos <= |book| == |idx| && Queued(book, idx) && (forall k :: 0 <= k < |idx| ==> idx[k] < n)
    requires (forall k :: pos <= k < |book| ==> book[k].price != r.price) && i < j <= |book|
    ensures var b, idx' := Splice(book, pos, r), Splice(idx, pos, n);
      idx'[i] != idx'[j] && (b[i].price == b[j].price ==> idx'[i] < idx'[j])
  {
    hide Queued;
    if i != pos && j != pos {
      QueuedAt(book, idx, if i < pos then i else i - 1, if j < pos then j else j - 1);
    }
  }

  ghost predicate BookHasOrigins(subs: seq<Submission>, b: Book<Levels>) {
    HaveOrigins(AsTag, subs, true, Flat(b.bids)) && HaveOrigins(AsTag, subs, false, Flat(b.asks))
  }

  lemma SubmitKeepsOrigins(subs: seq<Submission>, b: Book<Levels>)
    requires subs != [] && WfBook(b) && BookHasOrigins(subs[..|subs| - 1], b)
    ensures BookHasOrigins(subs, SubmitLevels(b, subs[|subs| - 1].order, subs[|subs| - 1].ts).book)
  {
    hide HaveOrigins;
    var n := |subs| - 1;
    var o, ts := subs[n].order, subs[n].ts;
    var isBid := o.side == BUY;
    var p, own, q := b.Side(!isBid), b.Side(isBid), ToUint32(o.quantity);
    FlatIsSide(!isBid, p);
    FlatIsSide(isBid, own);
    TailOrigins(AsTag, subs, n, isBid, Flat(own), Flat(own));
    if !HasSide(o) {
      TailOrigins(AsTag, subs, n, !isBid, Flat(p), Flat(p));
    } else {
      var w := Sweep(!isBid, o.price, p, q);
      SweepFlat(!isBid, o.price, p, q);
      MatchLeavesTail(!isBid, o.price, Flat(p), q);
      TailOrigins(AsTag, subs, n, !isBid, Flat(w.levels), Flat(p));
      if w.rem > 0 {
        MatchConserves(!isBid, o.price, Flat(p), q);
        var r := Resting(o.price, w.rem, TagOf(o, ts));
        AddFlat(isBid, own, r);
        InsertOrigins(AsTag, subs, n, isBid, Flat(own), r);
      }
    }
  }

  lemma NoOrigins<T(!new)>(rec: Recorded<T>, subs: seq<Submission>, isBid: bool)
    ensures HaveOrigins(rec, subs, isBid, [])
  {
    assert Origins(rec, subs, isBid, [], []);
  }

  /**
   Every order resting after a run is the remainder of a submission of its own: same side, price,
   identifier, sequence number and time, and no more than was submitted; and within a price the
   orders queue in the order in which they were submitted.
   */
  lemma {:induction false} RestingWasSubmitted(subs: seq<Submission>)
    ensures BookHasOrigins(subs, RunLevels(subs))
  {
    if |subs| == 0 {
      NoOrigins(AsTag, subs, true);
      NoOrigins(AsTag, subs, false);
    } else {
      var n := |subs| - 1;
      RestingWasSubmitted(subs[..n]);
      ReachableBook(subs[..n]);
      SubmitKeepsOrigins(subs, RunLevels(subs[..n]));
    }
  }

  ghost predicate PlainHasOrigins(subs: seq<Submission>, b: Book<Entries>) {
    HaveOrigins(AsPlainTag, subs, true, b.bids) && HaveOrigins(AsPlainTag, subs, false, b.asks)
  }

  lemma PlainKeepsOrigins(subs: seq<Submission>, b: Book<Entries>)
    requires subs != [] && PlainWf(b) && PlainHasOrigins(subs[..|subs| - 1], b)
    ensures PlainHasOrigins(subs, SubmitPlain(b, subs[|subs| - 1].order).book)
  {
    hide HaveOrigins;
    var n := |subs| - 1;
    var o := subs[n].order;
    var isBid := o.side == BUY;
    var p, own, q := b.Side(!isBid), b.Side(isBid), ToUint32(o.quantity);
    TailOrigins(AsPlainTag, subs, n, isBid, own, own);
    if !HasSide(o) {
      TailOrigins(AsPlainTag, subs, n, !isBid, p, p);
    } else {
      var m := Match(!isBid, o.price, p, q);
      MatchLeavesTail(!isBid, o.price, p, q);
      TailOrigins(AsPlainTag, subs, n, !isBid, m.book, p);
      if m.rem > 0 {
        MatchConserves(!isBid, o.price, p, q);
        InsertOrigins(AsPlainTag, subs, n, isBid, own, Resting(o.price, m.rem, PlainTagOf(o)));
      }
    }
  }

  /** The same for the vector-based book, identifiers in full. */
  lemma {:induction false} PlainRestingWasSubmitted(subs: seq<Submission>)
    ensures PlainHasOrigins(subs, RunPlain(subs))
  {
    if |subs| == 0 {
      NoOrigins(AsPlainTag, subs, true);
      NoOrigins(AsPlainTag, subs, false);
    } else {
      var n := |subs| - 1;
      PlainRestingWasSubmitted(subs[..n]);
      PlainReachable(subs[..n]);
      PlainKeepsOrigins(subs, RunPlain(subs[..n]));
    }
  }

  // ----- Price-time priority -----

  /** Position `k` has priority over `j`: a better price, or the same price and an earlier submission. */
  ghost predicate Ahead<T(!new)>(isBid: bool, p: seq<Resting<T>>, idx: seq<nat>, k: nat, j: nat)
    requires |idx| == |p| && k < |p| && j < |p|
  {
    Better(isBid, p[k].price, p[j].price) || (p[k].price == p[j].price && idx[k] < idx[j])
  }

  /**
   The executions `f` respect the priority of the passive side `p`, whose orders were submitted
   at `idx`: fill `j` hits position `j`; every order ahead of an executed one has been executed
   in full; match prices move away from the best and never breach the incoming limit.
   */
  ghost predicate RespectsPriority<T(!new)>(isBid: bool, limit: int, p: seq<Resting<T>>, idx: seq<nat>, f: seq<Fill<T>>) {
    && |f| <= |p| == |idx|
    && (forall j :: 0 <= j < |f| ==> f[j].tag == p[j].tag && f[j].price == p[j].price && 0 < f[j].qty <= p[j].qty)
    && (forall j, k :: 0 <= j < |f| && 0 <= k < |p| && Ahead(isBid, p, idx, k, j) ==>
          k < |f| && f[k].qty == p[k].qty)
    && (forall j, k :: 0 <= j < k < |f| ==> !Better(isBid, f[k].price, f[j].price))
    && (forall j :: 0 <= j < |f| ==> !Better(isBid, limit, f[j].price))
  }

  lemma MatchRespectsPriority<T(!new)>(isBid: bool, limit: int, p: seq<Resting<T>>, idx: seq<nat>, r: Matched<T>)
    requires Sorted(isBid, p) && Queued(p, idx) && InPriority(isBid, limit, p, r)
    ensures RespectsPriority(isBid, limit, p, idx, r.fills)
  {
    assert forall j :: 0 <= j < |r.fills| ==> Executes(isBid, limit, p[j], r.fills[j], j == |r.fills| - 1);
    forall j, k | 0 <= j < |r.fills| && 0 <= k < |p| && Ahead(isBid, p, idx, k, j)
      ensures k < |r.fills| && r.fills[k].qty == p[k].qty
    {
      assert k < j;
    }
  }

  ghost predicate InPriorityOfArrival<T(!new)>(rec: Recorded<T>, subs: seq<Submission>, isBid: bool, limit: int, p: seq<Resting<T>>,
                                      f: seq<Fill<T>>) {
    exists idx :: Origins(rec, subs, isBid, p, idx) && RespectsPriority(isBid, limit, p, idx, f)
  }

  /**
   Priority over whole runs: every submission of every run executes in price-time priority
   against the side it meets, time being the order of submission, so no better-priced and no
   earlier resting order is ever passed over.
   */
  lemma PriorityOverRuns(subs: seq<Submission>, n: nat)
    requires n < |subs| && (subs[n].order.side == 1 || subs[n].order.side == 2)
    ensures var isBid := subs[n].order.side == 2;
      InPriorityOfArrival(AsTag, subs[..n], isBid, subs[n].order.price, Flat(RunLevels(subs[..n]).Side(isBid)),
                          LevelStep(subs, n).fills)
  {
    var o := subs[n].order;
    var isBid := o.side == SELL;
    var levels := RunLevels(subs[..n]).Side(isBid);
    var p, q := Flat(levels), ToUint32(o.quantity);
    ReachableBook(subs[..n]);
    RestingWasSubmitted(subs[..n]);
    var idx :| Origins(AsTag, subs[..n], isBid, p, idx);
    SweepFlat(isBid, o.price, levels, q);
    FlatIsSide(isBid, levels);
    MatchInPriority(isBid, o.price, p, q);
    MatchRespectsPriority(isBid, o.price, p, idx, Match(isBid, o.price, p, q));
  }

  /** And so it does in the vector-based book. */
  lemma PlainPriorityOverRuns(subs: seq<Submission>, n: nat)
    requires n < |subs| && (subs[n].order.side == 1 || subs[n].order.side == 2)
    ensures var isBid := subs[n].order.side == 2;
      InPriorityOfArrival(AsPlainTag, subs[..n], isBid, subs[n].order.price, RunPlain(subs[..n]).Side(isBid),
                          PlainStep(subs, n).fills)
  {
    var o := subs[n].order;
    var isBid := o.side == SELL;
    var p, q := RunPlain(subs[..n]).Side(isBid), ToUint32(o.quantity);
    PlainReachable(subs[..n]);
    PlainRestingWasSubmitted(subs[..n]);
    var idx :| Origins(AsPlainTag, subs[..n], isBid, p, idx);
    MatchInPriority(isBid, o.price, p, q);
    MatchRespectsPriority(isBid, o.price, p, idx, Match(isBid, o.price, p, q));
  }
}
