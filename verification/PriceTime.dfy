/**
 Price-time priority matching over plain lists: the specification level shared by the
 vector-based book and the zero-allocation book. A side of a book is a list of resting
 orders, best price first and oldest first within a price.
 */
module PriceTime {
  import opened Basics

  /** A resting order: its price, what is left of it, and whatever else the book records. */
  datatype Resting<+T> = Resting(price: int, qty: nat, tag: T)

  /** One execution against a resting order. */
  datatype Fill<+T> = Fill(tag: T, price: int, qty: nat)

  /** What is left after matching: the passive side, the incoming quantity, the executions. */
  datatype Matched<+T> = Matched(book: seq<Resting<T>>, rem: nat, fills: seq<Fill<T>>)

  /** `p` is a strictly better resting price than `q` on the given side. */
  predicate Better(isBid: bool, p: int, q: int) {
    if isBid then p > q else p < q
  }

  function Head<T>(r: Resting<T>, q: nat): Fill<T> {
    Fill(r.tag, r.price, q)
  }

  function Reduce<T>(r: Resting<T>, q: nat): Resting<T>
    requires q <= r.qty
  {
    r.(qty := r.qty - q)
  }

  /** Executes `rem` units limited at `limit` against the passive side `book`. */
  function Match<T>(isBid: bool, limit: int, book: seq<Resting<T>>, rem: nat): Matched<T> {
    if book == [] || rem == 0 || Better(isBid, limit, book[0].price) then
      Matched(book, rem, [])
    else
      var q := Min(rem, book[0].qty);
      if q == book[0].qty then
        var r := Match(isBid, limit, book[1..], rem - q);
        Matched(r.book, r.rem, [Head(book[0], q)] + r.fills)
      else
        Matched([Reduce(book[0], q)] + book[1..], 0, [Head(book[0], q)])
  }

  /** The side after its front order gave up `q` units. */
  ghost function AfterFront<T>(book: seq<Resting<T>>, q: nat): seq<Resting<T>>
    requires book != [] && q <= book[0].qty
  {
    if q == book[0].qty then book[1..] else [Reduce(book[0], q)] + book[1..]
  }

  /** The match `whole` is `fills`, already executed, followed by the match of what is left. */
  ghost predicate Underway<T>(isBid: bool, limit: int, whole: Matched<T>, book: seq<Resting<T>>, rem: nat,
                              fills: seq<Fill<T>>) {
    var m := Match(isBid, limit, book, rem);
    whole == Matched(m.book, m.rem, fills + m.fills)
  }

  ghost predicate MatchDone<T>(isBid: bool, limit: int, book: seq<Resting<T>>, rem: nat) {
    book == [] || rem == 0 || Better(isBid, limit, book[0].price)
  }

  lemma MatchStart<T>(isBid: bool, limit: int, book: seq<Resting<T>>, rem: nat)
    ensures Underway(isBid, limit, Match(isBid, limit, book, rem), book, rem, [])
  {
  }

  /** One turn of a matching loop is one unfolding of the match. */
  lemma MatchTurn<T>(isBid: bool, limit: int, whole: Matched<T>, book: seq<Resting<T>>, rem: nat, fills: seq<Fill<T>>)
    requires !MatchDone(isBid, limit, book, rem) && Underway(isBid, limit, whole, book, rem, fills)
    ensures var q := Min(rem, book[0].qty);
      Underway(isBid, limit, whole, AfterFront(book, q), rem - q, fills + [Head(book[0], q)])
  {
    var q := Min(rem, book[0].qty);
    var h := Head(book[0], q);
    var m := Match(isBid, limit, AfterFront(book, q), rem - q);
    assert Match(isBid, limit, book, rem) == Matched(m.book, m.rem, [h] + m.fills);
    assert fills + ([h] + m.fills) == (fills + [h]) + m.fills;
  }

  lemma MatchOver<T>(isBid: bool, limit: int, whole: Matched<T>, book: seq<Resting<T>>, rem: nat, fills: seq<Fill<T>>)
    requires MatchDone(isBid, limit, book, rem) && Underway(isBid, limit, whole, book, rem, fills)
    ensures whole == Matched(book, rem, fills)
  {
  }

  /** First position whose price is strictly worse than `price`: std::upper_bound on a sorted side. */
  function UpperBound<T>(isBid: bool, book: seq<Resting<T>>, price: int): (pos: nat)
    ensures pos <= |book|
    ensures pos < |book| ==> Better(isBid, price, book[pos].price)
    ensures forall i :: 0 <= i < pos ==> !Better(isBid, price, book[i].price)
  {
    if book == [] || Better(isBid, price, book[0].price) then 0
    else 1 + UpperBound(isBid, book[1..], price)
  }

  function Insert<T>(isBid: bool, book: seq<Resting<T>>, r: Resting<T>): seq<Resting<T>> {
    var pos := UpperBound(isBid, book, r.price);
    Splice(book, pos, r)
  }

  // ----- Invariants of a side -----

  ghost predicate Sorted<T>(isBid: bool, s: seq<Resting<T>>) {
    forall i, j :: 0 <= i < j < |s| ==> !Better(isBid, s[j].price, s[i].price)
  }

  ghost predicate Positive<T>(s: seq<Resting<T>>) {
    forall i :: 0 <= i < |s| ==> s[i].qty > 0
  }

  ghost function SumQty<T>(s: seq<Resting<T>>): nat {
    if s == [] then 0 else s[0].qty + SumQty(s[1..])
  }

  ghost function Volume<T>(f: seq<Fill<T>>): nat {
    if f == [] then 0 else f[0].qty + Volume(f[1..])
  }

  lemma {:induction false} SumQtyAppend<T>(a: seq<Resting<T>>, b: seq<Resting<T>>)
    ensures SumQty(a + b) == SumQty(a) + SumQty(b)
  {
    if a == [] {
      assert a + b == b;
    } else {
      assert (a + b)[1..] == a[1..] + b;
      SumQtyAppend(a[1..], b);
    }
  }

  lemma {:induction false} VolumeAppend<T>(a: seq<Fill<T>>, b: seq<Fill<T>>)
    ensures Volume(a + b) == Volume(a) + Volume(b)
  {
    if a == [] {
      assert a + b == b;
    } else {
      assert (a + b)[1..] == a[1..] + b;
      VolumeAppend(a[1..], b);
    }
  }

  lemma VolumeSnoc<T>(a: seq<Fill<T>>, f: Fill<T>)
    ensures Volume(a + [f]) == Volume(a) + f.qty
  {
    VolumeAppend(a, [f]);
    assert Volume([f]) == f.qty;
  }

  // ----- What matching does, without its recursion -----

  /** Every executed unit leaves both the incoming order and the passive side. */
  lemma {:induction false} MatchConserves<T>(isBid: bool, limit: int, book: seq<Resting<T>>, rem: nat)
    ensures var r := Match(isBid, limit, book, rem);
      && rem == r.rem + Volume(r.fills)
      && SumQty(book) == SumQty(r.book) + Volume(r.fills)
  {
    if book == [] || rem == 0 || Better(isBid, limit, book[0].price) {
    } else {
      var q := Min(rem, book[0].qty);
      var h := Head(book[0], q);
      if q == book[0].qty {
        MatchConserves(isBid, limit, book[1..], rem - q);
        VolumeAppend([h], Match(isBid, limit, book[1..], rem - q).fills);
      } else {
        var b := [Reduce(book[0], q)] + book[1..];
        assert b[1..] == book[1..];
        assert Volume([h]) == q;
      }
    }
  }

  /** `f` executes against `x` within the limit, in full unless it is the last execution. */
  ghost predicate Executes<T>(isBid: bool, limit: int, x: Resting<T>, f: Fill<T>, last: bool) {
    && f.tag == x.tag
    && f.price == x.price
    && !Better(isBid, limit, x.price)
    && 0 < f.qty <= x.qty
    && (last || f.qty == x.qty)
  }

  ghost predicate AllExecute<T>(isBid: bool, limit: int, book: seq<Resting<T>>, fills: seq<Fill<T>>) {
    && |fills| <= |book|
    && forall j :: 0 <= j < |fills| ==> Executes(isBid, limit, book[j], fills[j], j == |fills| - 1)
  }

  ghost predicate LastPartial<T>(book: seq<Resting<T>>, fills: seq<Fill<T>>)
    requires |fills| <= |book|
  {
    var n := |fills|;
    n > 0 && fills[n - 1].qty < book[n - 1].qty
  }

  /**
   Price-time priority of one submission. The executions hit the passive side in its own
   order, one per position starting at the best; only the last one may be partial, and it
   is so only when the incoming order is used up. Everything behind is untouched, and what
   stops an unfinished order is an empty side or a price beyond its limit.
   */
  ghost predicate InPriority<T>(isBid: bool, limit: int, book: seq<Resting<T>>, r: Matched<T>) {
    var n := |r.fills|;
    && AllExecute(isBid, limit, book, r.fills)
    && (if LastPartial(book, r.fills)
        then r.rem == 0 && r.book == [Reduce(book[n - 1], r.fills[n - 1].qty)] + book[n..]
        else r.book == book[n..])
    && (r.rem > 0 && r.book != [] ==> Better(isBid, limit, r.book[0].price))
  }

  lemma AllExecuteFront<T>(isBid: bool, limit: int, book: seq<Resting<T>>, fills: seq<Fill<T>>, f: Fill<T>)
    requires book != [] && Executes(isBid, limit, book[0], f, false)
    ensures AllExecute(isBid, limit, book[1..], fills) <==> AllExecute(isBid, limit, book, [f] + fills)
  {
    var g, b := [f] + fills, book[1..];
    var n := |fills|;
    if AllExecute(isBid, limit, b, fills) {
      forall j | 0 <= j < n + 1
        ensures Executes(isBid, limit, book[j], g[j], j == n)
      {
        if j > 0 {
          assert Executes(isBid, limit, b[j - 1], fills[j - 1], j - 1 == n - 1);
        }
      }
    }
    if AllExecute(isBid, limit, book, g) {
      forall j | 0 <= j < n
        ensures Executes(isBid, limit, b[j], fills[j], j == n - 1)
      {
        assert Executes(isBid, limit, book[j + 1], g[j + 1], j + 1 == n);
      }
    }
  }

  /** Executing the whole front order first keeps to the priority of what is behind it, and conversely. */
  lemma InPriorityFront<T>(isBid: bool, limit: int, book: seq<Resting<T>>, r: Matched<T>, f: Fill<T>)
    requires book != [] && Executes(isBid, limit, book[0], f, false)
    ensures InPriority(isBid, limit, book[1..], r) <==>
            InPriority(isBid, limit, book, Matched(r.book, r.rem, [f] + r.fills))
  {
    var n := |r.fills|;
    AllExecuteFront(isBid, limit, book, r.fills, f);
    if n + 1 <= |book| {
      assert book[1..][n..] == book[n + 1..];
      assert n > 0 ==> ([f] + r.fills)[n] == r.fills[n - 1] && book[1..][n - 1] == book[n];
    }
  }

  lemma {:induction false} MatchInPriority<T>(isBid: bool, limit: int, book: seq<Resting<T>>, rem: nat)
    requires Positive(book)
    ensures InPriority(isBid, limit, book, Match(isBid, limit, book, rem))
  {
    hide InPriority;
    if book == [] || rem == 0 || Better(isBid, limit, book[0].price) {
      UntouchedInPriority(isBid, limit, book, rem);
    } else {
      var q := Min(rem, book[0].qty);
      if q == book[0].qty {
        MatchInPriority(isBid, limit, book[1..], rem - q);
        InPriorityFront(isBid, limit, book, Match(isBid, limit, book[1..], rem - q), Head(book[0], q));
      } else {
        PartialInPriority(isBid, limit, book, q);
      }
    }
  }

  lemma UntouchedInPriority<T>(isBid: bool, limit: int, book: seq<Resting<T>>, rem: nat)
    requires book == [] || rem == 0 || Better(isBid, limit, book[0].price)
    ensures InPriority(isBid, limit, book, Matched(book, rem, []))
  {
    assert book[0..] == book;
  }

  lemma PartialInPriority<T>(isBid: bool, limit: int, book: seq<Resting<T>>, q: nat)
    requires book != [] && 0 < q < book[0].qty && !Better(isBid, limit, book[0].price)
    ensures InPriority(isBid, limit, book, Matched([Reduce(book[0], q)] + book[1..], 0, [Head(book[0], q)]))
  {
  }

  /** Priority and conservation leave no freedom: together they determine the result of matching. */
  lemma {:induction false} PriorityDetermines<T>(isBid: bool, limit: int, book: seq<Resting<T>>, rem: nat,
                                                 r: Matched<T>)
    requires Positive(book)
    requires InPriority(isBid, limit, book, r)
    requires rem == r.rem + Volume(r.fills)
    ensures r == Match(isBid, limit, book, rem)
  {
    hide InPriority;
    var n := |r.fills|;
    InPriorityStarts(isBid, limit, book, r);
    if n > 0 && r.fills[0].qty == book[0].qty {
      var r' := Matched(r.book, r.rem, r.fills[1..]);
      assert r == Matched(r'.book, r'.rem, [r.fills[0]] + r'.fills);
      InPriorityFront(isBid, limit, book, r', r.fills[0]);
      PriorityDetermines(isBid, limit, book[1..], rem - r.fills[0].qty, r');
    } else if n > 0 {
      assert r.fills[1..] == [];
    }
  }

  /** The three ways a match in priority can start: not at all, with a last partial fill, with a whole order. */
  lemma InPriorityStarts<T>(isBid: bool, limit: int, book: seq<Resting<T>>, r: Matched<T>)
    requires InPriority(isBid, limit, book, r)
    ensures r.fills == [] ==> r.book == book && (r.rem > 0 && book != [] ==> Better(isBid, limit, book[0].price))
    ensures r.fills != [] ==> book != [] && Executes(isBid, limit, book[0], r.fills[0], |r.fills| == 1)
    ensures r.fills != [] && r.fills[0].qty < book[0].qty ==>
      |r.fills| == 1 && r.rem == 0 && r.book == [Reduce(book[0], r.fills[0].qty)] + book[1..]
  {
    assert book[0..] == book;
  }

  /** `r` is what remains of `x`. */
  ghost predicate Remains<T>(r: Resting<T>, x: Resting<T>) {
    r.price == x.price && r.tag == x.tag && r.qty <= x.qty
  }

  /** `b` is the tail of `book`, apart from quantities that may have shrunk. */
  ghost predicate TailOf<T(!new)>(b: seq<Resting<T>>, book: seq<Resting<T>>) {
    && |b| <= |book|
    && forall i :: 0 <= i < |b| ==> Remains(b[i], book[|book| - |b| + i])
  }

  /** Matching takes orders from the front of a side only, and leaves every remaining quantity positive. */
  lemma {:induction false} MatchLeavesTail<T(!new)>(isBid: bool, limit: int, book: seq<Resting<T>>, rem: nat)
    requires Positive(book)
    ensures var r := Match(isBid, limit, book, rem);
      TailOf(r.book, book) && Positive(r.book)
  {
    if book == [] || rem == 0 || Better(isBid, limit, book[0].price) {
    } else if Min(rem, book[0].qty) == book[0].qty {
      MatchLeavesTail(isBid, limit, book[1..], rem - book[0].qty);
      TailOfTail(Match(isBid, limit, book[1..], rem - book[0].qty).book, book);
    }
  }

  lemma TailOfTail<T(!new)>(b: seq<Resting<T>>, book: seq<Resting<T>>)
    requires book != [] && TailOf(b, book[1..])
    ensures TailOf(b, book)
  {
  }

  /** Two resting orders that differ in nothing but what the two books record beside price and quantity. */
  ghost predicate SameOrder<T(!new), U(!new)>(rel: (T, U) -> bool, a: Resting<T>, b: Resting<U>) {
    a.price == b.price && a.qty == b.qty && rel(a.tag, b.tag)
  }

  ghost predicate SameFill<T(!new), U(!new)>(rel: (T, U) -> bool, a: Fill<T>, b: Fill<U>) {
    a.price == b.price && a.qty == b.qty && rel(a.tag, b.tag)
  }

  ghost predicate Similar<T(!new), U(!new)>(rel: (T, U) -> bool, a: seq<Resting<T>>, b: seq<Resting<U>>) {
    |a| == |b| && forall i :: 0 <= i < |a| ==> SameOrder(rel, a[i], b[i])
  }

  ghost predicate SimilarFills<T(!new), U(!new)>(rel: (T, U) -> bool, a: seq<Fill<T>>, b: seq<Fill<U>>) {
    |a| == |b| && forall i :: 0 <= i < |a| ==> SameFill(rel, a[i], b[i])
  }

  lemma SimilarRest<T(!new), U(!new)>(rel: (T, U) -> bool, a: seq<Resting<T>>, b: seq<Resting<U>>)
    requires Similar(rel, a, b) && a != []
    ensures Similar(rel, a[1..], b[1..])
  {
  }

  /** Matching looks at nothing but price and quantity. */
  lemma {:induction false} MatchSimilar<T(!new), U(!new)>(rel: (T, U) -> bool, isBid: bool, limit: int,
                                    a: seq<Resting<T>>, b: seq<Resting<U>>, rem: nat)
    requires Similar(rel, a, b)
    ensures var x := Match(isBid, limit, a, rem);
            var y := Match(isBid, limit, b, rem);
            x.rem == y.rem && Similar(rel, x.book, y.book) && SimilarFills(rel, x.fills, y.fills)
  {
    if a == [] {
    } else {
      assert SameOrder(rel, a[0], b[0]);
      if rem == 0 || Better(isBid, limit, a[0].price) {
      } else {
        var q := Min(rem, a[0].qty);
        assert SameFill(rel, Head(a[0], q), Head(b[0], q));
        SimilarRest(rel, a, b);
        if q == a[0].qty {
          MatchSimilar(rel, isBid, limit, a[1..], b[1..], rem - q);
        } else {
          assert SameOrder(rel, Reduce(a[0], q), Reduce(b[0], q));
        }
      }
    }
  }

  lemma {:induction false} UpperBoundSimilar<T(!new), U(!new)>(rel: (T, U) -> bool, isBid: bool, a: seq<Resting<T>>, b: seq<Resting<U>>, price: int)
    requires Similar(rel, a, b)
    ensures UpperBound(isBid, a, price) == UpperBound(isBid, b, price)
  {
    if a != [] {
      assert SameOrder(rel, a[0], b[0]);
      UpperBoundSimilar(rel, isBid, a[1..], b[1..], price);
    }
  }

  lemma InsertSimilar<T(!new), U(!new)>(rel: (T, U) -> bool, isBid: bool, a: seq<Resting<T>>, b: seq<Resting<U>>,
                                        x: Resting<T>, y: Resting<U>)
    requires Similar(rel, a, b) && Similar(rel, [x], [y])
    ensures Similar(rel, Insert(isBid, a, x), Insert(isBid, b, y))
  {
    assert [x][0] == x && [y][0] == y;
    UpperBoundSimilar(rel, isBid, a, b, x.price);
  }

  /** Everything from the insertion point on is strictly worse. */
  lemma BehindUpperBound<T>(isBid: bool, book: seq<Resting<T>>, price: int)
    requires Sorted(isBid, book)
    ensures forall i :: UpperBound(isBid, book, price) <= i < |book| ==> Better(isBid, price, book[i].price)
  {
    var pos := UpperBound(isBid, book, price);
    forall i | pos <= i < |book|
      ensures Better(isBid, price, book[i].price)
    {
      assert i == pos || !Better(isBid, book[i].price, book[pos].price);
    }
  }

  /** Insertion goes behind everything at the order's price or better, so a sorted side stays sorted. */
  lemma {:induction false} InsertSorted<T>(isBid: bool, book: seq<Resting<T>>, r: Resting<T>)
    requires Sorted(isBid, book)
    ensures Sorted(isBid, Insert(isBid, book, r))
  {
    BehindUpperBound(isBid, book, r.price);
  }

  /** Insertion adds exactly the new quantity. */
  lemma SumOne<T>(r: Resting<T>)
    ensures SumQty([r]) == r.qty
  {
  }

  lemma SpliceSum<T>(book: seq<Resting<T>>, pos: nat, r: Resting<T>)
    requires pos <= |book|
    ensures SumQty(Splice(book, pos, r)) == SumQty(book) + r.qty
  {
    hide SumQty;
    SumQtyAppend(book[..pos] + [r], book[pos..]);
    SumQtyAppend(book[..pos], [r]);
    SumQtyAppend(book[..pos], book[pos..]);
    assert book[..pos] + book[pos..] == book;
    SumOne(r);
  }

  lemma InsertConserves<T>(isBid: bool, book: seq<Resting<T>>, r: Resting<T>)
    ensures SumQty(Insert(isBid, book, r)) == SumQty(book) + r.qty
    ensures Positive(book) && r.qty > 0 ==> Positive(Insert(isBid, book, r))
  {
    hide SumQty;
    SpliceSum(book, UpperBound(isBid, book, r.price), r);
  }
}
