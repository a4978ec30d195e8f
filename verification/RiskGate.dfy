/** The pre-trade risk gate, with the 64-bit arithmetic of its checks written out. */
module RiskGate {
  import opened Orders
  import opened Modular

  datatype Status = Approved | RejectedMaxQty | RejectedPriceCollar | RejectedMaxNotional | RejectedKillSwitch

  datatype Limits = Limits(maxQty: nat, maxDeviation: int, maxNotional: nat, killSwitch: bool)

  const DEFAULT_LIMITS := Limits(50_000, 5_000_000, 2_000_000, false)

  /** The engine's fixed reference price, $35. */
  const REFERENCE: int := 35_000_000

  const SCALE: nat := 1_000_000

  /** Conversion to 64 bits, unsigned. */
  function ToUint64(x: int): (r: nat)
    ensures r < 0x1_0000_0000_0000_0000
    ensures 0 <= x < 0x1_0000_0000_0000_0000 ==> r == x
    ensures -0x1_0000_0000_0000_0000 <= x < 0 ==> r == x + 0x1_0000_0000_0000_0000
  {
    x % TWO_64
  }

  function Distance(a: int, b: int): nat {
    if a > b then a - b else b - a
  }

  /** Quantity times price in dollars, as the 64-bit product gives it. */
  function NotionalUsd(o: ParsedOrder): nat {
    (ToUint64(o.quantity) * ToUint64(o.price)) % TWO_64 / SCALE
  }

  function Evaluate(l: Limits, o: ParsedOrder, reference: int): Status {
    if l.killSwitch then RejectedKillSwitch
    else if o.quantity > 0 && ToUint32(o.quantity) > l.maxQty then RejectedMaxQty
    else if reference > 0 && Distance(o.price, reference) > l.maxDeviation then RejectedPriceCollar
    else if NotionalUsd(o) > l.maxNotional then RejectedMaxNotional
    else Approved
  }

  /** The evaluation gets as far as the collar, where the price distance is computed. */
  predicate ReachesCollar(l: Limits, o: ParsedOrder, reference: int) {
    !l.killSwitch && !(o.quantity > 0 && ToUint32(o.quantity) > l.maxQty) && reference > 0
  }

  class PreTradeRiskManager {
    var limits: Limits
    var approvedCount: nat
    var rejectedCount: nat

    constructor (limits: Limits)
      ensures this.limits == limits && approvedCount == 0 && rejectedCount == 0
    {
      this.limits := limits;
      approvedCount, rejectedCount := 0, 0;
    }

    /** The price distance is a signed 64-bit value in the source: where it is computed, it has to fit. */
    method EvaluateOrder(o: ParsedOrder, reference: int) returns (status: Status)
      requires ReachesCollar(limits, o, reference) ==> FitsInt64(Distance(o.price, reference))
      modifies this`approvedCount, this`rejectedCount
      ensures status == Evaluate(limits, o, reference)
      ensures approvedCount == old(approvedCount) + (if status == Approved then 1 else 0)
      ensures rejectedCount == old(rejectedCount) + (if status == Approved then 0 else 1)
    {
      if limits.killSwitch {
        rejectedCount := rejectedCount + 1;
        return RejectedKillSwitch;
      }
      if o.quantity > 0 && ToUint32(o.quantity) > limits.maxQty {
        rejectedCount := rejectedCount + 1;
        return RejectedMaxQty;
      }
      if reference > 0 {
        var dev := if o.price > reference then o.price - reference else reference - o.price;
        if dev > limits.maxDeviation {
          rejectedCount := rejectedCount + 1;
          return RejectedPriceCollar;
        }
      }
      var notional := ToUint64(o.quantity) * ToUint64(o.price) % TWO_64 / SCALE;
      if notional > limits.maxNotional {
        rejectedCount := rejectedCount + 1;
        return RejectedMaxNotional;
      }
      approvedCount := approvedCount + 1;
      return Approved;
    }

    method SetKillSwitch(active: bool)
      modifies this`limits
      ensures limits == old(limits).(killSwitch := active)
    {
      limits := limits.(killSwitch := active);
    }
  }

  // ----- What approval means -----

  lemma MulBound(x: int, y: int, xmax: nat, ymax: nat)
    requires 0 <= x <= xmax && 0 <= y <= ymax
    ensures 0 <= x * y <= xmax * ymax
  {
  }

  lemma Expand(x: int, y: int, i: int, j: int, n: int)
    ensures (x + i * n) * (y + j * n) == x * y + (x * j + i * y + i * (j * n)) * n
  {
    calc {
      (x + i * n) * (y + j * n);
      x * (y + j * n) + (i * n) * (y + j * n);
      x * y + x * (j * n) + (i * n) * y + (i * n) * (j * n);
      x * y + (x * j) * n + (i * y) * n + (i * (j * n)) * n;
    }
  }

  /** The product of the remainders is the product, modulo `n`. */
  lemma Congruent(a: int, b: int, n: nat) returns (k: int)
    requires n > 0
    ensures (a % n) * (b % n) % n == a * b - k * n
  {
    var i, j, x, y := a / n, b / n, a % n, b % n;
    var l := x * y / n;
    Expand(x, y, i, j, n);
    assert a == x + i * n && b == y + j * n;
    assert x * y == l * n + x * y % n;
    k := l + (x * j + i * y + i * (j * n));
  }

  /** For every order, in all wrap-around cases: the product modulo 2^64, in whole dollars. */
  lemma NotionalWraps(o: ParsedOrder) returns (w: nat, k: int)
    ensures w < 0x1_0000_0000_0000_0000 && w == o.quantity * o.price - k * 0x1_0000_0000_0000_0000
    ensures NotionalUsd(o) == w / 1_000_000
  {
    w := (ToUint64(o.quantity) * ToUint64(o.price)) % TWO_64;
    k := Congruent(o.quantity, o.price, TWO_64);
  }

  /** A non-negative product below 2^64 is computed exactly. */
  lemma NotionalExact(o: ParsedOrder)
    requires 0 <= o.quantity < TWO_64 && 0 <= o.price < TWO_64 && o.quantity * o.price < TWO_64
    ensures NotionalUsd(o) == o.quantity * o.price / 1_000_000
  {
    ModUnique(o.quantity, TWO_64, 0, o.quantity);
    ModUnique(o.price, TWO_64, 0, o.price);
    MulBound(o.quantity, o.price, o.quantity, o.price);
    ModUnique(o.quantity * o.price, TWO_64, 0, o.quantity * o.price);
  }

  /** A negative quantity wraps to a notional beyond any sensible cap. */
  lemma NotionalOfNegative(o: ParsedOrder)
    requires -0x8000_0000 <= o.quantity < 0 && 0 < o.price <= 40_000_000
    ensures NotionalUsd(o) > 2_000_000
  {
    var q, p := o.quantity, o.price;
    MulBound(-q, p, 0x8000_0000, 40_000_000);
    assert -q * p == -(q * p);
    assert ToUint64(q) == q + TWO_64 by {
      assert q % TWO_64 == q + TWO_64;
    }
    ModUnique(p, TWO_64, 0, p);
    assert (q + TWO_64) * p == q * p + TWO_64 * p == TWO_64 * (p - 1) + (q * p + TWO_64);
    assert q * p <= -1;
    ModUnique((q + TWO_64) * p, TWO_64, p - 1, q * p + TWO_64);
  }

  /** For any limits, on orders whose product stays within 64 bits, approval is the conjunction of the plain checks. */
  lemma ApprovedExactlyWhen(l: Limits, o: ParsedOrder, reference: int)
    requires 0 <= o.quantity < 0x8000_0000 && 0 <= o.price < TWO_63 && o.quantity * o.price < TWO_64
    ensures Evaluate(l, o, reference) == Approved <==>
      && !l.killSwitch
      && (o.quantity > 0 ==> o.quantity <= l.maxQty)
      && (reference > 0 ==> Distance(o.price, reference) <= l.maxDeviation)
      && o.quantity * o.price / 1_000_000 <= l.maxNotional
  {
    NotionalExact(o);
  }

  /** The quantity is positive and over its limit. */
  predicate TooMany(l: Limits, o: ParsedOrder) {
    o.quantity > 0 && o.quantity > l.maxQty
  }

  /** The price is further from a positive reference than the limit, on either side. */
  predicate TooFar(l: Limits, o: ParsedOrder, reference: int) {
    reference > 0 && (o.price > reference + l.maxDeviation || o.price < reference - l.maxDeviation)
  }

  /** The notional, rounded down to dollars, is over its limit. */
  predicate TooMuch(l: Limits, o: ParsedOrder) {
    o.quantity * o.price / 1_000_000 > l.maxNotional
  }

  /** For any limits: each rejection names the first limit that is broken. */
  lemma RejectedExactlyWhen(l: Limits, o: ParsedOrder, reference: int)
    requires 0 <= o.quantity < 0x8000_0000 && 0 <= o.price < TWO_63 && o.quantity * o.price < TWO_64
    ensures var r := Evaluate(l, o, reference);
      && (r == RejectedKillSwitch <==> l.killSwitch)
      && (r == RejectedMaxQty <==> !l.killSwitch && TooMany(l, o))
      && (r == RejectedPriceCollar <==> !l.killSwitch && !TooMany(l, o) && TooFar(l, o, reference))
      && (r == RejectedMaxNotional <==> !l.killSwitch && !TooMany(l, o) && !TooFar(l, o, reference) && TooMuch(l, o))
  {
    NotionalExact(o);
  }

  /** With the default limits, for every 32-bit quantity and every price, wrapped arithmetic included. */
  lemma DefaultRejections(o: ParsedOrder)
    requires FitsInt32(o.quantity)
    ensures var r := Evaluate(DEFAULT_LIMITS, o, 35_000_000);
      && r != RejectedKillSwitch
      && (r == RejectedMaxQty <==> o.quantity > 50_000)
      && (r == RejectedPriceCollar <==> o.quantity <= 50_000 && !(30_000_000 <= o.price <= 40_000_000))
      && (r == RejectedMaxNotional <==> o.quantity < 0 && 30_000_000 <= o.price <= 40_000_000)
  {
    DefaultGate(o);
    if 0 <= o.quantity <= 50_000 && 30_000_000 <= o.price <= 40_000_000 {
      assert Evaluate(DEFAULT_LIMITS, o, 35_000_000) == Approved;
    }
  }

  predicate WithinDefaults(o: ParsedOrder) {
    0 <= o.quantity <= 50_000 && 30_000_000 <= o.price <= 40_000_000
  }

  /**
   With the default limits and the fixed reference, for every 32-bit quantity and every price,
   wrapped arithmetic approves exactly quantities of 0 to 50,000 at $30 to $40.
   */
  lemma DefaultGate(o: ParsedOrder)
    requires FitsInt32(o.quantity)
    ensures Evaluate(DEFAULT_LIMITS, o, 35_000_000) == Approved <==> WithinDefaults(o)
  {
    if 30_000_000 <= o.price <= 40_000_000 {
      if o.quantity < 0 {
        NotionalOfNegative(o);
      } else if o.quantity <= 50_000 {
        MulBound(o.quantity, o.price, 50_000, 40_000_000);
        NotionalExact(o);
      }
    }
  }
}
