/**
 One side of the zero-allocation book: a fixed pool of price levels, a free list of pointers
 into it, and an array of pointers to the live levels sorted best first.
 */
module BookSides {
  import opened Basics
  import opened PriceTime
  import opened LevelBook
  import opened BookRuns
  import opened PriceLevels

  // ----- The pool and its pointers -----

  ghost predicate Distinct(s: seq<PriceLevel>) {
    forall i, j :: 0 <= i < j < |s| ==> s[i] != s[j]
  }

  /** No pool level is in use twice, and every one is either live or free. */
  ghost predicate Partition(live: seq<PriceLevel>, free: seq<PriceLevel>, pool: seq<PriceLevel>) {
    && Distinct(live + free)
    && |live| + |free| == |pool|
    && forall l :: l in live + free ==> l in pool
  }

  lemma DistinctParts(a: seq<PriceLevel>, b: seq<PriceLevel>)
    requires Distinct(a + b)
    ensures Distinct(a) && Distinct(b)
    ensures forall i, j :: 0 <= i < |a| && 0 <= j < |b| ==> a[i] != b[j]
  {
    var c := a + b;
    assert forall i :: 0 <= i < |a| ==> a[i] == c[i];
    assert forall j :: 0 <= j < |b| ==> b[j] == c[|a| + j];
  }

  /** Releasing the best level moves it from the live levels to the free list. */
  lemma PartitionRelease(live: seq<PriceLevel>, free: seq<PriceLevel>, pool: seq<PriceLevel>)
    requires Partition(live, free, pool) && live != []
    ensures Partition(live[1..], free + [live[0]], pool)
  {
    var a, b := live + free, live[1..] + (free + [live[0]]);
    var n := |a| - 1;
    assert forall i :: 0 <= i < n ==> b[i] == a[i + 1];
    assert b[n] == a[0];
  }

  /** Acquiring takes the top of the free list into the live levels. */
  lemma PartitionAcquire(live: seq<PriceLevel>, free: seq<PriceLevel>, pool: seq<PriceLevel>, pos: nat)
    requires Partition(live, free, pool) && free != [] && pos <= |live|
    ensures var n := |free| - 1;
      Partition(Splice(live, pos, free[n]), free[..n], pool)
  {
    var n := |free| - 1;
    var a, b := live + free, Splice(live, pos, free[n]) + free[..n];
    var last := |a| - 1;
    assert forall i :: 0 <= i < pos ==> b[i] == a[i];
    assert b[pos] == a[last];
    assert forall i :: pos < i < |b| ==> b[i] == a[i - 1];
  }

  /** A live level stands at one place only. */
  lemma LiveDiffer(live: seq<PriceLevel>, free: seq<PriceLevel>, pool: seq<PriceLevel>, pos: nat)
    requires Partition(live, free, pool) && pos < |live|
    ensures |live| <= |pool| && live[pos] in pool
    ensures forall i :: 0 <= i < |live| && i != pos ==> live[i] != live[pos]
  {
    DistinctParts(live, free);
    assert live[pos] in live + free;
  }

  /** The top of the free list is a pool level that is not live. */
  lemma FreeIsNotLive(live: seq<PriceLevel>, free: seq<PriceLevel>, pool: seq<PriceLevel>)
    requires Partition(live, free, pool) && free != []
    ensures free[|free| - 1] in pool && free[|free| - 1] !in live
  {
    DistinctParts(live, free);
    assert free[|free| - 1] in live + free;
  }

  /** The pool never leaks: every pool level is live or free, never both, never twice. */
  lemma PartitionCovers(live: seq<PriceLevel>, free: seq<PriceLevel>, pool: seq<PriceLevel>)
    requires Partition(live, free, pool) && Distinct(pool)
    ensures forall l :: l in pool ==> l in live || l in free
    ensures forall l :: !(l in live && l in free)
  {
    var all := live + free;
    DistinctParts(live, free);
    DistinctSize(all);
    DistinctSize(pool);
    var s, p := set l | l in all, set l | l in pool;
    assert s <= p;
    assert |p| == |s| + |p - s|;
    assert p - s == {};
    assert forall l :: l in pool ==> l in p;
  }

  lemma {:induction false} DistinctSize(s: seq<PriceLevel>)
    requires Distinct(s)
    ensures |set l | l in s| == |s|
  {
    if s != [] {
      var n := |s| - 1;
      DistinctSize(s[..n]);
      assert s == s[..n] + [s[n]];
      assert (set l | l in s) == (set l | l in s[..n]) + {s[n]};
      assert s[n] !in s[..n];
    }
  }

  method NewPool(n: nat) returns (pool: seq<PriceLevel>, ghost owned: set<object>)
    ensures |pool| == n && Distinct(pool)
    ensures fresh(owned) && forall l :: l in pool ==> l in owned && l.orders in owned && l.Valid()
    ensures forall l, k :: l in pool && k in pool && l != k ==> l.orders != k.orders
  {
    pool, owned := [], {};
    for i := 0 to n
      invariant |pool| == i && Distinct(pool)
      invariant fresh(owned) && forall l :: l in pool ==> l in owned && l.orders in owned && l.Valid()
      invariant forall l, k :: l in pool && k in pool && l != k ==> l.orders != k.orders
    {
      var l := new PriceLevel();
      pool, owned := pool + [l], owned + {l, l.orders};
    }
  }

  /** An array of pointers to the given levels. */
  method NewPointers(pool: seq<PriceLevel>) returns (a: array<PriceLevel?>)
    ensures fresh(a) && a.Length == |pool| && forall i :: 0 <= i < |pool| ==> a[i] == pool[i]
  {
    a := new PriceLevel?[|pool|](_ => null);
    for i := 0 to |pool|
      modifies a
      invariant forall k :: 0 <= k < i ==> a[k] == pool[k]
    {
      a[i] := pool[i];
    }
  }

  class BookSide {
    const isBid: bool
    const pool: seq<PriceLevel>
    const freeList: array<PriceLevel?>
    var freeCount: nat
    const levels: array<PriceLevel?>
    var levelCount: nat

    /** The live levels, best first; the free levels; the side as a value. */
    ghost var live: seq<PriceLevel>
    ghost var free: seq<PriceLevel>
    ghost var model: Levels

    ghost const repr: set<object>

    /** Storage that never changes: the pool levels and their rings are all different objects. */
    ghost predicate Storage() {
      && |pool| == MAX_BOOK_LEVELS && Distinct(pool)
      && levels.Length == MAX_BOOK_LEVELS && freeList.Length == MAX_BOOK_LEVELS && levels != freeList
      && this in repr && levels in repr && freeList in repr
      && (forall l :: l in pool ==> l in repr && l.orders in repr)
      && (forall l, k :: l in pool && k in pool && l != k ==> l.orders != k.orders)
      && (forall l :: l in pool ==> l.orders as object != levels && l.orders as object != freeList)
    }

    ghost predicate Pointers()
      reads this, levels, freeList
    {
      && Storage()
      && levelCount == |live| && freeCount == |free|
      && Partition(live, free, pool)
      && (forall i :: 0 <= i < |live| ==> levels[i] == live[i])
      && (forall i :: 0 <= i < |free| ==> freeList[i] == free[i])
    }

    ghost predicate LevelsValid()
      reads pool, set l | l in pool :: l.orders
    {
      forall l :: l in pool ==> l.Valid()
    }

    /** The live levels from `from` on hold what the model says. */
    ghost predicate Holds(from: nat)
      reads this, live
    {
      && |model| == |live|
      && forall i :: from <= i < |live| ==> live[i].price == model[i].price && live[i].queue == model[i].orders
    }

    ghost predicate Valid()
      reads this, repr
    {
      && Storage()
      && Pointers()
      && LevelsValid()
      && (forall l :: l in live ==> l in pool)
      && Holds(0)
      && WfSide(isBid, model)
    }

    constructor (isBid: bool)
      ensures Valid() && this.isBid == isBid && model == [] && fresh(repr)
    {
      this.isBid := isBid;
      var pool, owned := NewPool(MAX_BOOK_LEVELS);
      var levels := new PriceLevel?[MAX_BOOK_LEVELS](_ => null);
      var freeList := NewPointers(pool);
      this.levels, this.freeList, this.pool := levels, freeList, pool;
      freeCount, levelCount := MAX_BOOK_LEVELS, 0;
      live, free, model := [], pool, [];
      repr := {this, levels, freeList} + owned;
      new;
      assert live + free == pool;
      assert LevelsValid();
    }

    /** Gives a level back to the pool. */
    method ReleaseLevel(lvl: PriceLevel?)
      requires freeList.Length == MAX_BOOK_LEVELS
      modifies this`freeCount, freeList
      ensures lvl != null && old(freeCount) < MAX_BOOK_LEVELS ==>
        freeCount == old(freeCount) + 1 && freeList[..] == old(freeList[..])[old(freeCount) := lvl]
      ensures lvl == null || old(freeCount) >= MAX_BOOK_LEVELS ==>
        freeCount == old(freeCount) && freeList[..] == old(freeList[..])
    {
      if freeCount < MAX_BOOK_LEVELS && lvl != null {
        freeList[freeCount] := lvl;
        freeCount := freeCount + 1;
      }
    }

    /** Drops the best level: back to the pool with it, and the other pointers move up. */
    method RemoveBest()
      requires Pointers() && live != []
      modifies this`freeCount, this`levelCount, this`live, this`free, freeList, levels
      ensures Pointers()
      ensures live == old(live)[1..] && free == old(free) + [old(live)[0]]
    {
      ReleaseLevel(levels[0]);
      ghost var was := live;
      for l := 0 to levelCount - 1
        modifies levels
        invariant forall i :: 0 <= i < l ==> levels[i] == was[i + 1]
        invariant forall i :: l <= i < |was| ==> levels[i] == was[i]
      {
        levels[l] := levels[l + 1];
      }
      PartitionRelease(live, free, pool);
      levelCount := levelCount - 1;
      live, free := live[1..], free + [live[0]];
    }

    /** Takes a level off the free list; null only when the pool is exhausted. */
    method AcquireLevel() returns (lvl: PriceLevel?)
      requires Pointers() && LevelsValid()
      modifies this`freeCount, pool
      ensures old(freeCount) == 0 ==> lvl == null && freeCount == 0 && LevelsValid()
      ensures old(freeCount) > 0 ==>
        && lvl == old(free)[old(freeCount) - 1] && freeCount == old(freeCount) - 1
        && lvl in pool && LevelsValid() && lvl.queue == []
        && forall l :: l in pool && l != lvl ==> l.price == old(l.price) && l.queue == old(l.queue)
    {
      if freeCount == 0 {
        return null;
      }
      assert free[freeCount - 1] in live + free;
      freeCount := freeCount - 1;
      lvl := freeList[freeCount];
      lvl.Reset();
    }

    /** The binary search of add_to_book. */
    method FindSlot(price: int) returns (found: bool, pos: nat)
      requires Valid()
      ensures pos == Slot(isBid, model, price)
      ensures found == HasLevel(isBid, model, price)
    {
      var low, high := 0, levelCount;
      while low < high
        invariant 0 <= low <= high <= levelCount
        invariant forall i :: 0 <= i < low ==> Better(isBid, model[i].price, price)
        invariant forall i :: high <= i < |model| ==> Better(isBid, price, model[i].price)
      {
        var mid := low + (high - low) / 2;
        var p := levels[mid].price;
        assert p == model[mid].price;
        if p == price {
          SlotSplits(isBid, model, price, mid);
          return true, mid;
        }
        if Better(isBid, price, p) {
          high := mid;
        } else {
          low := mid + 1;
        }
      }
      SlotSplits(isBid, model, price, low);
      return false, low;
    }

    /** Opens a gap at `pos` by moving the pointers behind it down one place. */
    method ShiftDown(pos: nat)
      requires levels.Length == MAX_BOOK_LEVELS && pos <= levelCount == |live| < MAX_BOOK_LEVELS
      requires forall i :: 0 <= i < |live| ==> levels[i] == live[i]
      modifies levels
      ensures forall i :: 0 <= i < pos ==> levels[i] == live[i]
      ensures forall i :: pos <= i < |live| ==> levels[i + 1] == live[i]
    {
      var j := levelCount;
      while j > pos
        invariant pos <= j <= levelCount
        invariant forall i :: 0 <= i < j ==> levels[i] == live[i]
        invariant forall i :: j <= i < |live| ==> levels[i + 1] == live[i]
      {
        levels[j] := levels[j - 1];
        j := j - 1;
      }
    }

    /** Puts a level into the pointer array at `pos`. */
    method PlacePointer(pos: nat, lvl: PriceLevel)
      requires levels.Length == MAX_BOOK_LEVELS && pos <= levelCount == |live| < MAX_BOOK_LEVELS
      requires forall i :: 0 <= i < |live| ==> levels[i] == live[i]
      modifies levels
      ensures forall i :: 0 <= i <= |live| ==> levels[i] == Splice(live, pos, lvl)[i]
    {
      ShiftDown(pos);
      levels[pos] := lvl;
      forall i | 0 <= i <= |live|
        ensures levels[i] == Splice(live, pos, lvl)[i]
      {
        if i > pos {
          assert levels[(i - 1) + 1] == live[i - 1];
        }
      }
    }

    /** Links an empty pool level into the pointer array at `pos`. */
    method LinkLevel(pos: nat) returns (lvl: PriceLevel)
      requires Pointers() && LevelsValid() && pos <= levelCount < MAX_BOOK_LEVELS
      modifies this`freeCount, this`levelCount, this`live, this`free, levels, pool
      ensures Pointers() && LevelsValid()
      ensures lvl in pool && lvl !in old(live) && lvl.queue == []
      ensures live == Splice(old(live), pos, lvl)
      ensures forall l :: l in pool && l != lvl ==> l.price == old(l.price) && l.queue == old(l.queue)
    {
      assert |free| > 0;
      PartitionAcquire(live, free, pool, pos);
      FreeIsNotLive(live, free, pool);
      hide Partition;
      var new_level := AcquireLevel();
      assert new_level != null;
      lvl := new_level;
      PlacePointer(pos, lvl);
      levelCount := levelCount + 1;
      live, free := Splice(live, pos, lvl), free[..|free| - 1];
    }

    method FillNew(lvl: PriceLevel, r: BookOrder)
      requires Storage() && LevelsValid() && lvl in pool && lvl.queue == []
      modifies lvl, lvl.orders
      ensures LevelsValid()
      ensures lvl.price == r.price && lvl.queue == [r]
    {
      lvl.price := r.price;
      lvl.PushBackOrder(r);
      assert forall l :: l in pool && l != lvl ==> l.Valid();
    }

    /** A new level from the pool at the insertion position, holding one order. */
    method InsertLevel(pos: nat, r: BookOrder)
      requires Valid() && pos <= levelCount < MAX_BOOK_LEVELS
      requires WfSide(isBid, Splice(model, pos, Level(r.price, [r])))
      modifies repr
      ensures Valid()
      ensures model == Splice(old(model), pos, Level(r.price, [r]))
    {
      hide WfSide, Partition;
      var lvl := LinkLevel(pos);
      ghost var m := Splice(model, pos, Level(r.price, [r]));
      forall i | 0 <= i < |live| && i != pos
        ensures live[i] in pool && live[i] != lvl && live[i].price == m[i].price && live[i].queue == m[i].orders
      {
        var k := if i < pos then i else i - 1;
        assert live[i] == old(live)[k] && m[i] == old(model)[k];
        assert old(live)[k] in old(live);
      }
      FillNew(lvl, r);
      model := m;
    }

    /** An order joins the queue of an existing level, unless that level is full. */
    method AppendAt(pos: nat, r: BookOrder)
      requires Valid() && pos < levelCount && model[pos].price == r.price && r.qty > 0
      modifies repr
      ensures Valid()
      ensures model == if |old(model)[pos].orders| < MAX_ORDERS_PER_LEVEL
                       then old(model)[pos := Level(r.price, old(model)[pos].orders + [r])] else old(model)
    {
      hide WfSide, Partition;
      LiveDiffer(live, free, pool, pos);
      var lvl := levels[pos];
      assert lvl == live[pos] && lvl.Valid();
      ghost var m := Level(r.price, lvl.queue + [r]);
      if |lvl.queue| < MAX_ORDERS_PER_LEVEL {
        AppendWf(isBid, model, pos, r);
      }
      lvl.PushBackOrder(r);
      assert forall l :: l in pool && l != lvl ==> l.Valid();
      if |model[pos].orders| < MAX_ORDERS_PER_LEVEL {
        model := model[pos := m];
      }
    }

    /**
     Rests an unmatched residual: under its own price level, or a new one while there is room for
     it. At 64 levels (the caller does not let it come to that) only an existing level can take it.
     */
    method AddToBook(r: BookOrder)
      requires Valid() && r.qty > 0
      modifies repr
      ensures Valid()
      ensures |old(model)| < MAX_BOOK_LEVELS ==> model == Add(isBid, old(model), r)
      ensures |old(model)| == MAX_BOOK_LEVELS ==>
        var pos := Slot(isBid, old(model), r.price);
        model == if HasLevel(isBid, old(model), r.price) && |old(model)[pos].orders| < MAX_ORDERS_PER_LEVEL
                 then old(model)[pos := Level(r.price, old(model)[pos].orders + [r])] else old(model)
    {
      var found, pos := FindSlot(r.price);
      AddWf(isBid, model, r);
      if found {
        AppendAt(pos, r);
      } else if levelCount < MAX_BOOK_LEVELS {
        InsertLevel(pos, r);
      }
    }

    /** Valid except that the best level has executed and may even be empty. */
    ghost predicate BestExecuted()
      reads this, repr
    {
      && Storage()
      && Pointers()
      && LevelsValid()
      && live != [] && (forall l :: l in live ==> l in pool)
      && Holds(1) && live[0].price == model[0].price
      && WfSide(isBid, model)
      && (live[0].queue == [] || WfLevel(Level(model[0].price, live[0].queue)))
    }

    /** After executions at the best level: drop it if nothing is left there. */
    method SettleBest()
      requires BestExecuted()
      modifies this, levels, freeList
      ensures Valid()
      ensures model == if old(live[0].queue) == [] then old(model)[1..]
                       else [old(model)[0].(orders := old(live[0].queue))] + old(model)[1..]
    {
      hide WfSide, Partition;
      var best := levels[0];
      assert best == live[0] && best in live && best.Valid();
      WfTail(isBid, model);
      if best.count > 0 {
        ReplaceBestWf(isBid, model, best.queue);
      }
      if best.count == 0 {
        RemoveBest();
        model := model[1..];
      } else {
        model := [model[0].(orders := best.queue)] + model[1..];
      }
    }
  }
}
