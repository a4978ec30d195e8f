/** The price level of the zero-allocation book: a 32-slot circular FIFO with a cached quantity. */
module PriceLevels {
  import opened Basics
  import opened PriceTime
  import opened LevelBook
  import opened Orders
  import opened BookRuns

  type BookOrder = Resting<Tag>

  const EMPTY_NODE: BookOrder := Resting(0, 0, Tag(0, "", 1, 0))

  /** The ring slot `k` places behind `head`. */
  function RingSlot(head: nat, k: nat): (s: nat)
    requires head < MAX_ORDERS_PER_LEVEL && k <= MAX_ORDERS_PER_LEVEL
    ensures s == (head + k) % MAX_ORDERS_PER_LEVEL && s < MAX_ORDERS_PER_LEVEL
  {
    if head + k < MAX_ORDERS_PER_LEVEL then head + k else head + k - MAX_ORDERS_PER_LEVEL
  }

  /** What the front order gives up leaves the sum; an exhausted order adds nothing to it. */
  lemma FrontSum(queue: seq<BookOrder>, q: nat)
    requires queue != [] && q <= queue[0].qty
    ensures SumQty(queue) == SumQty([Reduce(queue[0], q)] + queue[1..]) + q
    ensures q == queue[0].qty ==> SumQty(queue) == SumQty(queue[1..]) + q
  {
    SumQtyAppend([Reduce(queue[0], q)], queue[1..]);
    SumOne(Reduce(queue[0], q));
  }

  /** The 32-bit cache follows the sum down, through zero if it has to. */
  lemma CacheFollows(sum: nat, q: nat)
    ensures ((sum + q) % TWO_32 + TWO_32 - q % TWO_32) % TWO_32 == sum % TWO_32
  {
  }

  class PriceLevel {
    var price: int
    const orders: array<BookOrder>
    var head: nat
    var count: nat
    var cachedQty: nat

    /** The live orders, oldest first. */
    ghost var queue: seq<BookOrder>

    ghost predicate Ring()
      reads this, orders
    {
      && orders.Length == MAX_ORDERS_PER_LEVEL
      && head < MAX_ORDERS_PER_LEVEL
      && count == |queue| <= MAX_ORDERS_PER_LEVEL
      && forall k :: 0 <= k < |queue| ==> orders[RingSlot(head, k)] == queue[k]
    }

    /** The ring holds the queue, and the 32-bit cached quantity is its sum. */
    ghost predicate Valid()
      reads this, orders
    {
      Ring() && cachedQty == SumQty(queue) % TWO_32
    }

    constructor ()
      ensures Valid() && queue == [] && fresh(orders)
    {
      price, head, count, cachedQty := 0, 0, 0, 0;
      orders := new BookOrder[MAX_ORDERS_PER_LEVEL](_ => EMPTY_NODE);
      queue := [];
    }

    method Reset()
      requires Ring()
      modifies this
      ensures Valid() && queue == [] && price == 0
    {
      price, head, count, cachedQty := 0, 0, 0, 0;
      queue := [];
    }

    method FrontOrder() returns (o: BookOrder)
      requires Ring() && queue != []
      ensures o == queue[0]
    {
      o := orders[head];
      assert RingSlot(head, 0) == head;
    }

    method PopFrontOrder()
      requires Ring()
      modifies this`head, this`count, this`queue
      ensures Ring()
      ensures queue == if old(queue) == [] then [] else old(queue)[1..]
    {
      if count > 0 {
        assert forall k :: 1 <= k < count ==> RingSlot(head, k) == RingSlot(RingSlot(head, 1), k - 1);
        head := (head + 1) % MAX_ORDERS_PER_LEVEL;
        count := count - 1;
        queue := queue[1..];
        if count == 0 {
          head := 0;
        }
      }
    }

    /** A full level ignores the order. */
    method PushBackOrder(o: BookOrder)
      requires Valid()
      modifies this`count, this`cachedQty, this`queue, orders
      ensures Valid()
      ensures queue == if |old(queue)| < MAX_ORDERS_PER_LEVEL then old(queue) + [o] else old(queue)
    {
      if count < MAX_ORDERS_PER_LEVEL {
        var idx := (head + count) % MAX_ORDERS_PER_LEVEL;
        assert idx == RingSlot(head, count);
        assert forall k :: 0 <= k < count ==> RingSlot(head, k) != idx;
        SumQtyAppend(queue, [o]);
        assert SumQty([o]) == o.qty;
        orders[idx] := o;
        cachedQty := (cachedQty + o.qty) % TWO_32;
        count := count + 1;
        queue := queue + [o];
      }
    }

    /**
     One execution of the inner matching loop: the front order gives up what it can, and
     leaves the ring when nothing is left of it.
     */
    method ExecuteFront(rem: nat) returns (q: nat)
      requires Valid() && queue != []
      modifies this`head, this`count, this`cachedQty, this`queue, orders
      ensures Valid()
      ensures q == Min(rem, old(queue[0].qty))
      ensures queue == AfterFront(old(queue), q)
    {
      hide SumQty;
      var passive := FrontOrder();
      q := Min(rem, passive.qty);
      ghost var was := queue;
      assert forall k :: 1 <= k < count ==> RingSlot(head, k) != RingSlot(head, 0) == head;
      FrontSum(was, q);
      orders[head] := Reduce(passive, q);
      queue := [Reduce(was[0], q)] + was[1..];
      cachedQty := (cachedQty + TWO_32 - q % TWO_32) % TWO_32;
      CacheFollows(SumQty(queue), q);
      if passive.qty == q {
        PopFrontOrder();
        assert queue == was[1..];
      }
    }
  }
}
