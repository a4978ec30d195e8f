/**
 The zero-allocation book on values: a side is a list of price levels, each a queue of
 orders, with the two capacity limits of the real structure. Flattening the levels best
 first gives back a plain priority list, and every operation is related to its plain
 counterpart through that flattening.
 */
module LevelBook {
  import opened Basics
  import opened PriceTime

  const MAX_BOOK_LEVELS: nat := 64
  const MAX_ORDERS_PER_LEVEL: nat := 32

  datatype Level<+T> = Level(price: int, orders: seq<Resting<T>>)

  datatype Swept<+T> = Swept(levels: seq<Level<T>>, rem: nat, fills: seq<Fill<T>>)

  function Flat<T>(levels: seq<Level<T>>): seq<Resting<T>> {
    if levels == [] then [] else levels[0].orders + Flat(levels[1..])
  }

  /** The nested matching loops: exhaust the best level, drop it when empty, go on with the next. */
  function Sweep<T>(isBid: bool, limit: int, levels: seq<Level<T>>, rem: nat): Swept<T> {
    if levels == [] || rem == 0 || Better(isBid, limit, levels[0].price) then
      Swept(levels, rem, [])
    else
      var r := Match(isBid, limit, levels[0].orders, rem);
      if r.book == [] then
        var rest := Sweep(isBid, limit, levels[1..], r.rem);
        Swept(rest.levels, rest.rem, r.fills + rest.fills)
      else
        Swept([levels[0].(orders := r.book)] + levels[1..], r.rem, r.fills)
  }

  /** First level that is not strictly better than `price`: where the binary search ends. */
  function Slot<T>(isBid: bool, levels: seq<Level<T>>, price: int): (pos: nat)
    ensures pos <= |levels|
    ensures pos < |levels| ==> !Better(isBid, levels[pos].price, price)
    ensures forall i :: 0 <= i < pos ==> Better(isBid, levels[i].price, price)
  {
    if levels == [] || !Better(isBid, levels[0].price, price) then 0
    else 1 + Slot(isBid, levels[1..], price)
  }

  /** The side has a level at exactly this price, at its slot. */
  predicate HasLevel<T>(isBid: bool, levels: seq<Level<T>>, price: int) {
    var pos := Slot(isBid, levels, price);
    pos < |levels| && levels[pos].price == price
  }

  /** A residual is kept unless the side has all its levels in use or its own level is full. */
  predicate Accepts<T>(isBid: bool, levels: seq<Level<T>>, price: int) {
    && |levels| < MAX_BOOK_LEVELS
    && (HasLevel(isBid, levels, price) ==> |levels[Slot(isBid, levels, price)].orders| < MAX_ORDERS_PER_LEVEL)
  }

  function Add<T>(isBid: bool, levels: seq<Level<T>>, r: Resting<T>): seq<Level<T>> {
    var pos := Slot(isBid, levels, r.price);
    if !Accepts(isBid, levels, r.price) then levels
    else if HasLevel(isBid, levels, r.price) then
      levels[pos := levels[pos].(orders := levels[pos].orders + [r])]
    else
      Splice(levels, pos, Level(r.price, [r]))
  }

  // ----- Well-formed sides -----

  ghost predicate WfLevel<T>(l: Level<T>) {
    && 0 < |l.orders| <= MAX_ORDERS_PER_LEVEL
    && Positive(l.orders)
    && forall i :: 0 <= i < |l.orders| ==> l.orders[i].price == l.price
  }

  ghost predicate StrictPrices<T>(isBid: bool, levels: seq<Level<T>>) {
    forall i, j :: 0 <= i < j < |levels| ==> Better(isBid, levels[i].price, levels[j].price)
  }

  ghost predicate WfSide<T>(isBid: bool, levels: seq<Level<T>>) {
    && |levels| <= MAX_BOOK_LEVELS
    && StrictPrices(isBid, levels)
    && forall i :: 0 <= i < |levels| ==> WfLevel(levels[i])
  }

  lemma WfTail<T>(isBid: bool, levels: seq<Level<T>>)
    requires WfSide(isBid, levels) && levels != []
    ensures WfSide(isBid, levels[1..])
    ensures forall i :: 1 <= i < |levels| ==> Better(isBid, levels[0].price, levels[i].price)
  {
  }

  lemma {:induction false} FlatAppend<T>(a: seq<Level<T>>, b: seq<Level<T>>)
    ensures Flat(a + b) == Flat(a) + Flat(b)
  {
    if a == [] {
      assert a + b == b;
    } else {
      assert (a + b)[1..] == a[1..] + b;
      FlatAppend(a[1..], b);
    }
  }

  lemma FlatOne<T>(l: Level<T>)
    ensures Flat([l]) == l.orders
  {
    assert [l][1..] == [];
  }

  /** Every order of a side is found in one of its levels. */
  lemma {:induction false} FlatMember<T>(levels: seq<Level<T>>, k: nat) returns (i: nat, j: nat)
    requires k < |Flat(levels)|
    ensures i < |levels| && j < |levels[i].orders| && Flat(levels)[k] == levels[i].orders[j]
  {
    if k < |levels[0].orders| {
      i, j := 0, k;
    } else {
      i, j := FlatMember(levels[1..], k - |levels[0].orders|);
      i := i + 1;
    }
  }

  /** All orders of a well-formed side are positive and no better than its first level. */
  lemma FlatBounds<T>(isBid: bool, levels: seq<Level<T>>, k: nat)
    requires WfSide(isBid, levels) && k < |Flat(levels)|
    ensures levels != [] && Flat(levels)[k].qty > 0
    ensures !Better(isBid, Flat(levels)[k].price, levels[0].price)
  {
    var i, j := FlatMember(levels, k);
    assert WfLevel(levels[i]);
  }

  lemma BehindFirst<T>(isBid: bool, b: seq<Level<T>>, k: nat)
    requires WfSide(isBid, b) && b != [] && k < |Flat(b[1..])|
    ensures Better(isBid, b[0].price, Flat(b[1..])[k].price)
  {
    WfTail(isBid, b);
    var i, j := FlatMember(b[1..], k);
    assert WfLevel(b[1..][i]);
  }

  /** A well-formed side flattens to a sorted list of positive orders headed by the best level. */
  lemma {:induction false} FlatIsSide<T>(isBid: bool, levels: seq<Level<T>>)
    requires WfSide(isBid, levels)
    ensures Sorted(isBid, Flat(levels)) && Positive(Flat(levels))
    ensures levels == [] <==> Flat(levels) == []
    ensures levels != [] ==> Flat(levels)[0].price == levels[0].price
  {
    forall k | 0 <= k < |Flat(levels)|
      ensures Flat(levels)[k].qty > 0
    {
      FlatBounds(isBid, levels, k);
    }
    if levels != [] {
      assert WfLevel(levels[0]);
      WfTail(isBid, levels);
      FlatIsSide(isBid, levels[1..]);
      FlatTailSorted(isBid, levels);
    }
  }

  lemma FlatTailSorted<T>(isBid: bool, levels: seq<Level<T>>)
    requires WfSide(isBid, levels) && levels != []
    requires Sorted(isBid, Flat(levels[1..]))
    ensures Sorted(isBid, Flat(levels))
  {
    var a, b := levels[0].orders, Flat(levels[1..]);
    assert WfLevel(levels[0]);
    forall j | 0 <= j < |b|
      ensures Better(isBid, levels[0].price, b[j].price)
    {
      BehindFirst(isBid, levels, j);
    }
    SortedAppend(isBid, a, b, levels[0].price);
  }

  lemma SortedAppend<T>(isBid: bool, a: seq<Resting<T>>, b: seq<Resting<T>>, price: int)
    requires forall i :: 0 <= i < |a| ==> a[i].price == price
    requires forall j :: 0 <= j < |b| ==> Better(isBid, price, b[j].price)
    requires Sorted(isBid, b)
    ensures Sorted(isBid, a + b)
  {
  }

  // ----- Matching level by level is matching the flat list -----

  /** Matching a level the order can trade with never stops inside it for the price. */
  lemma {:induction false} MatchAcross<T>(isBid: bool, limit: int, a: seq<Resting<T>>, b: seq<Resting<T>>, rem: nat)
    requires Positive(a)
    requires forall i :: 0 <= i < |a| ==> !Better(isBid, limit, a[i].price)
    ensures var r := Match(isBid, limit, a, rem);
      && (r.book != [] ==> r.rem == 0)
      && Match(isBid, limit, a + b, rem) ==
         if r.book == [] then
           var s := Match(isBid, limit, b, r.rem);
           Matched(s.book, s.rem, r.fills + s.fills)
         else Matched(r.book + b, 0, r.fills)
  {
    if a == [] {
      assert a + b == b;
    } else if rem == 0 {
    } else {
      var q := Min(rem, a[0].qty);
      assert (a + b)[0] == a[0] && (a + b)[1..] == a[1..] + b;
      if q == a[0].qty {
        MatchAcross(isBid, limit, a[1..], b, rem - q);
        MatchPrepend(isBid, limit, a, b, rem);
      } else {
        assert [Reduce(a[0], q)] + (a[1..] + b) == ([Reduce(a[0], q)] + a[1..]) + b;
      }
    }
  }

  lemma MatchPrepend<T>(isBid: bool, limit: int, a: seq<Resting<T>>, b: seq<Resting<T>>, rem: nat)
    requires a != [] && 0 < a[0].qty <= rem && !Better(isBid, limit, a[0].price)
    requires (a + b)[1..] == a[1..] + b
    ensures var r' := Match(isBid, limit, a[1..], rem - a[0].qty);
            var s' := Match(isBid, limit, a[1..] + b, rem - a[0].qty);
            var h := [Head(a[0], a[0].qty)];
      && Match(isBid, limit, a, rem) == Matched(r'.book, r'.rem, h + r'.fills)
      && Match(isBid, limit, a + b, rem) == Matched(s'.book, s'.rem, h + s'.fills)
      && forall t: seq<Fill<T>> :: (h + r'.fills) + t == h + (r'.fills + t)
  {
    assert (a + b)[0] == a[0];
  }

  /** The level sweep and the plain match agree on the flattened side, the residual and every execution. */
  lemma {:induction false} SweepFlat<T>(isBid: bool, limit: int, levels: seq<Level<T>>, rem: nat)
    requires WfSide(isBid, levels)
    ensures var w := Sweep(isBid, limit, levels, rem);
      Matched(Flat(w.levels), w.rem, w.fills) == Match(isBid, limit, Flat(levels), rem)
  {
    FlatIsSide(isBid, levels);
    if levels == [] || rem == 0 || Better(isBid, limit, levels[0].price) {
    } else {
      var a := levels[0].orders;
      assert WfLevel(levels[0]);
      var r := Match(isBid, limit, a, rem);
      MatchAcross(isBid, limit, a, Flat(levels[1..]), rem);
      if r.book == [] {
        WfTail(isBid, levels);
        SweepFlat(isBid, limit, levels[1..], r.rem);
      } else {
        var l := [levels[0].(orders := r.book)] + levels[1..];
        assert l[1..] == levels[1..];
      }
    }
  }

  /** Sweeping keeps a side well formed. */
  lemma {:induction false} SweepWf<T(!new)>(isBid: bool, limit: int, levels: seq<Level<T>>, rem: nat)
    requires WfSide(isBid, levels)
    ensures WfSide(isBid, Sweep(isBid, limit, levels, rem).levels)
  {
    if levels == [] || rem == 0 || Better(isBid, limit, levels[0].price) {
    } else {
      assert WfLevel(levels[0]);
      var r := Match(isBid, limit, levels[0].orders, rem);
      MatchLeavesTail(isBid, limit, levels[0].orders, rem);
      WfTail(isBid, levels);
      if r.book == [] {
        SweepWf(isBid, limit, levels[1..], r.rem);
      } else {
        assert WfLevel(levels[0].(orders := r.book));
      }
    }
  }

  // ----- Adding to a level is inserting into the flat list -----

  lemma {:induction false} UpperBoundAppend<T>(isBid: bool, a: seq<Resting<T>>, b: seq<Resting<T>>, price: int)
    requires forall i :: 0 <= i < |a| ==> !Better(isBid, price, a[i].price)
    requires b == [] || Better(isBid, price, b[0].price)
    ensures UpperBound(isBid, a + b, price) == |a|
  {
    if a == [] {
      assert a + b == b;
    } else {
      assert (a + b)[1..] == a[1..] + b;
      UpperBoundAppend(isBid, a[1..], b, price);
    }
  }

  /** In a strictly sorted side every level behind the slot is worse, save one at the price itself. */
  lemma SlotSplits<T>(isBid: bool, levels: seq<Level<T>>, price: int, pos: nat)
    requires StrictPrices(isBid, levels) && pos <= |levels|
    requires forall i :: 0 <= i < pos ==> Better(isBid, levels[i].price, price)
    requires pos < |levels| ==> !Better(isBid, levels[pos].price, price)
    ensures pos == Slot(isBid, levels, price)
    ensures forall i :: pos < i < |levels| ==> Better(isBid, price, levels[i].price)
  {
    var s := Slot(isBid, levels, price);
    if s != pos {
      assert false;
    }
  }

  lemma FlatSplit<T>(levels: seq<Level<T>>, pos: nat)
    requires pos <= |levels|
    ensures Flat(levels) == Flat(levels[..pos]) + Flat(levels[pos..])
  {
    hide Flat;
    FlatAppend(levels[..pos], levels[pos..]);
    assert levels[..pos] + levels[pos..] == levels;
  }

  /** If the levels up to `pos` are no worse than `price` and the rest are worse, the order goes in between. */
  lemma InsertBetween<T>(isBid: bool, a: seq<Level<T>>, b: seq<Level<T>>, r: Resting<T>)
    requires WfSide(isBid, a) && WfSide(isBid, b)
    requires forall i :: 0 <= i < |a| ==> !Better(isBid, r.price, a[i].price)
    requires b != [] ==> Better(isBid, r.price, b[0].price)
    ensures Insert(isBid, Flat(a) + Flat(b), r) == Flat(a) + [r] + Flat(b)
  {
    forall k | 0 <= k < |Flat(a)|
      ensures !Better(isBid, r.price, Flat(a)[k].price)
    {
      var i, j := FlatMember(a, k);
      assert WfLevel(a[i]);
    }
    FlatIsSide(isBid, b);
    UpperBoundAppend(isBid, Flat(a), Flat(b), r.price);
  }

  lemma WfPart<T>(isBid: bool, levels: seq<Level<T>>, lo: nat, hi: nat)
    requires WfSide(isBid, levels) && lo <= hi <= |levels|
    ensures WfSide(isBid, levels[lo..hi])
  {
    var s := levels[lo..hi];
    forall i | 0 <= i < |s| ensures WfLevel(s[i]) { assert s[i] == levels[lo + i]; }
    forall i, j | 0 <= i < j < |s| ensures Better(isBid, s[i].price, s[j].price) {
      assert s[i] == levels[lo + i] && s[j] == levels[lo + j];
    }
  }

  /** An accepted residual lands where the plain book inserts it; a refused one changes nothing. */
  lemma AddFlat<T>(isBid: bool, levels: seq<Level<T>>, r: Resting<T>)
    requires WfSide(isBid, levels)
    ensures Flat(Add(isBid, levels, r)) ==
      if Accepts(isBid, levels, r.price) then Insert(isBid, Flat(levels), r) else Flat(levels)
  {
    if Accepts(isBid, levels, r.price) {
      var pos := Slot(isBid, levels, r.price);
      SlotSplits(isBid, levels, r.price, pos);
      if HasLevel(isBid, levels, r.price) {
        AddFlatOld(isBid, levels, r, pos);
      } else {
        AddFlatNew(isBid, levels, r, pos);
      }
    }
  }

  lemma AddFlatNew<T>(isBid: bool, levels: seq<Level<T>>, r: Resting<T>, pos: nat)
    requires WfSide(isBid, levels) && Accepts(isBid, levels, r.price)
    requires pos == Slot(isBid, levels, r.price) && !HasLevel(isBid, levels, r.price)
    ensures Flat(Add(isBid, levels, r)) == Insert(isBid, Flat(levels), r)
  {
    var a, b := levels[..pos], levels[pos..];
    var l := Level(r.price, [r]);
    FlatSplit(levels, pos);
    FlatAppend(a + [l], b);
    FlatAppend(a, [l]);
    FlatOne(l);
    WfPart(isBid, levels, 0, pos);
    WfPart(isBid, levels, pos, |levels|);
    InsertBetween(isBid, a, b, r);
  }

  lemma AddFlatOld<T>(isBid: bool, levels: seq<Level<T>>, r: Resting<T>, pos: nat)
    requires WfSide(isBid, levels) && pos < |levels| && levels[pos].price == r.price
    ensures Flat(levels[pos := levels[pos].(orders := levels[pos].orders + [r])]) == Insert(isBid, Flat(levels), r)
  {
    var a, b := levels[..pos + 1], levels[pos + 1..];
    FlatSplit(levels, pos + 1);
    WfPart(isBid, levels, 0, pos + 1);
    WfPart(isBid, levels, pos + 1, |levels|);
    assert forall i :: 0 <= i < |a| ==> a[i] == levels[i];
    assert forall i :: 0 <= i < pos ==> Better(isBid, levels[i].price, levels[pos].price);
    InsertBetween(isBid, a, b, r);
    FlatExtend(levels, pos, r);
  }

  lemma FlatExtend<T>(levels: seq<Level<T>>, pos: nat, r: Resting<T>)
    requires pos < |levels|
    ensures Flat(levels[pos := levels[pos].(orders := levels[pos].orders + [r])]) ==
            Flat(levels[..pos + 1]) + [r] + Flat(levels[pos + 1..])
  {
    FlatReplace(levels, pos, levels[pos].(orders := levels[pos].orders + [r]));
    Regroup(Flat(levels[..pos]), levels[pos].orders, [r], Flat(levels[pos + 1..]));
  }

  lemma Regroup<T>(x: seq<Resting<T>>, y: seq<Resting<T>>, r: seq<Resting<T>>, z: seq<Resting<T>>)
    ensures x + (y + r) + z == (x + y) + r + z
  {
  }

  lemma FlatReplace<T>(levels: seq<Level<T>>, pos: nat, l: Level<T>)
    requires pos < |levels|
    ensures Flat(levels[pos := l]) == Flat(levels[..pos]) + l.orders + Flat(levels[pos + 1..])
    ensures Flat(levels[..pos + 1]) == Flat(levels[..pos]) + levels[pos].orders
  {
    assert levels[pos := l] == (levels[..pos] + [l]) + levels[pos + 1..];
    FlatAppend(levels[..pos] + [l], levels[pos + 1..]);
    FlatAppend(levels[..pos], [l]);
    FlatOne(l);
    assert levels[..pos + 1] == levels[..pos] + [levels[pos]];
    FlatAppend(levels[..pos], [levels[pos]]);
    FlatOne(levels[pos]);
  }

  lemma AppendWf<T>(isBid: bool, levels: seq<Level<T>>, pos: nat, r: Resting<T>)
    requires WfSide(isBid, levels) && pos < |levels| && |levels[pos].orders| < MAX_ORDERS_PER_LEVEL
    requires levels[pos].price == r.price && r.qty > 0
    ensures WfSide(isBid, levels[pos := Level(r.price, levels[pos].orders + [r])])
  {
    assert WfLevel(levels[pos]);
    assert WfLevel(Level(r.price, levels[pos].orders + [r]));
  }

  lemma ReplaceBestWf<T>(isBid: bool, levels: seq<Level<T>>, queue: seq<Resting<T>>)
    requires WfSide(isBid, levels) && levels != [] && WfLevel(Level(levels[0].price, queue))
    ensures WfSide(isBid, [levels[0].(orders := queue)] + levels[1..])
  {
    var s := [levels[0].(orders := queue)] + levels[1..];
    assert s == levels[0 := Level(levels[0].price, queue)];
  }

  /** Adding keeps a side well formed. */
  lemma AddWf<T>(isBid: bool, levels: seq<Level<T>>, r: Resting<T>)
    requires WfSide(isBid, levels) && r.qty > 0
    ensures WfSide(isBid, Add(isBid, levels, r))
  {
    if Accepts(isBid, levels, r.price) {
      var pos := Slot(isBid, levels, r.price);
      SlotSplits(isBid, levels, r.price, pos);
      if HasLevel(isBid, levels, r.price) {
        assert WfLevel(levels[pos]);
        assert WfLevel(levels[pos].(orders := levels[pos].orders + [r]));
      } else {
        AddNewWf(isBid, levels, r, pos);
      }
    }
  }

  lemma AddNewWf<T>(isBid: bool, levels: seq<Level<T>>, r: Resting<T>, pos: nat)
    requires WfSide(isBid, levels) && r.qty > 0 && |levels| < MAX_BOOK_LEVELS && pos <= |levels|
    requires forall i :: 0 <= i < pos ==> Better(isBid, levels[i].price, r.price)
    requires forall i :: pos <= i < |levels| ==> Better(isBid, r.price, levels[i].price)
    ensures WfSide(isBid, Splice(levels, pos, Level(r.price, [r])))
  {
    var l := Level(r.price, [r]);
    var s := levels[..pos] + [l] + levels[pos..];
    assert WfLevel(l);
    forall i | 0 <= i < |s| ensures WfLevel(s[i]) {
      assert s[i] == if i < pos then levels[i] else if i == pos then l else levels[i - 1];
    }
    forall i, j | 0 <= i < j < |s| ensures Better(isBid, s[i].price, s[j].price) {
      assert s[i] == if i < pos then levels[i] else if i == pos then l else levels[i - 1];
      assert s[j] == if j < pos then levels[j] else if j == pos then l else levels[j - 1];
    }
  }

  /** Flattening forgets nothing: a well-formed side is determined by its flat list. */
  lemma {:induction false} FlatInjective<T>(isBid: bool, a: seq<Level<T>>, b: seq<Level<T>>)
    requires WfSide(isBid, a) && WfSide(isBid, b) && Flat(a) == Flat(b)
    ensures a == b
  {
    FlatIsSide(isBid, a);
    FlatIsSide(isBid, b);
    if a != [] {
      FirstLevelLength(isBid, a, b);
      FirstLevelLength(isBid, b, a);
      assert Flat(a)[..|a[0].orders|] == a[0].orders;
      assert Flat(b)[..|b[0].orders|] == b[0].orders;
      assert Flat(a)[|a[0].orders|..] == Flat(a[1..]);
      assert Flat(b)[|b[0].orders|..] == Flat(b[1..]);
      WfTail(isBid, a);
      WfTail(isBid, b);
      FlatInjective(isBid, a[1..], b[1..]);
      assert a == [a[0]] + a[1..] && b == [b[0]] + b[1..];
    }
  }

  lemma FirstLevelLength<T>(isBid: bool, a: seq<Level<T>>, b: seq<Level<T>>)
    requires WfSide(isBid, a) && WfSide(isBid, b) && Flat(a) == Flat(b) && a != [] && b != []
    requires a[0].price == b[0].price
    ensures |a[0].orders| <= |b[0].orders|
  {
    var k := |b[0].orders|;
    assert WfLevel(a[0]);
    assert k < |a[0].orders| ==> Flat(a)[k] == a[0].orders[k];
    if k < |a[0].orders| {
      BehindFirst(isBid, b, 0);
      assert false;
    }
  }
}
