/**
 The sequence reorder buffer: packets ahead of the expected number wait in a masked ring and
 come out in order. The specification keeps them in a map from number to payload.
 */
module ReorderBuffers {
  import opened Modular

  type Payload = string

  /** One byte of every slot is kept for the terminating NUL. */
  const MAX_PAYLOAD: nat := 512

  datatype Reorder = Reorder(expected: nat, pending: map<nat, Payload>)

  /** Emit buffered packets while the next one is there. */
  function Drain(st: Reorder): (Reorder, seq<Payload>)
    decreases |st.pending|
  {
    if st.expected in st.pending then
      var (rest, out) := Drain(Reorder(st.expected + 1, st.pending - {st.expected}));
      (rest, [st.pending[st.expected]] + out)
    else (st, [])
  }

  /** A packet with an empty payload is passed over in silence when it arrives in order. */
  function EmitNow(p: Payload): seq<Payload> {
    if p == "" then [] else [p]
  }

  function Arrive(cap: nat, st: Reorder, s: nat, p: Payload): (Reorder, seq<Payload>) {
    if s == st.expected then
      var (rest, out) := Drain(Reorder(st.expected + 1, st.pending));
      (rest, EmitNow(p) + out)
    else if st.expected < s < st.expected + cap then (st.(pending := st.pending[s := p]), [])
    else (st, [])
  }

  // ----- What is waiting, and what has come out -----

  /** Everything waiting is ahead of the expected number by less than the capacity. */
  ghost predicate InWindow(cap: nat, st: Reorder) {
    forall s :: s in st.pending ==> st.expected < s < st.expected + cap
  }

  /** While draining, the expected number itself may still be waiting. */
  ghost predicate Draining(cap: nat, st: Reorder) {
    forall s :: s in st.pending ==> st.expected <= s < st.expected + cap
  }

  /** The payloads numbered `lo` up to but not including `hi`. */
  ghost function Range(pay: nat -> Payload, lo: nat, hi: nat): seq<Payload> {
    if lo >= hi then [] else Range(pay, lo, hi - 1) + [pay(hi - 1)]
  }

  lemma {:induction false} RangeJoin(pay: nat -> Payload, lo: nat, mid: nat, hi: nat)
    requires lo <= mid <= hi
    ensures Range(pay, lo, mid) + Range(pay, mid, hi) == Range(pay, lo, hi)
  {
    if mid < hi {
      RangeJoin(pay, lo, mid, hi - 1);
    }
  }

  lemma RangeOne(pay: nat -> Payload, lo: nat)
    ensures Range(pay, lo, lo + 1) == [pay(lo)]
  {
  }

  ghost predicate Carries(pay: nat -> Payload, st: Reorder) {
    forall s :: s in st.pending ==> st.pending[s] == pay(s)
  }

  lemma {:induction false} DrainSpec(cap: nat, st: Reorder, pay: nat -> Payload)
    requires Draining(cap, st) && Carries(pay, st)
    ensures var (st', out) := Drain(st);
      && st.expected <= st'.expected
      && out == Range(pay, st.expected, st'.expected)
      && InWindow(cap, st') && Carries(pay, st')
    decreases |st.pending|
  {
    if st.expected in st.pending {
      hide Range;
      var st1 := Reorder(st.expected + 1, st.pending - {st.expected});
      DrainSpec(cap, st1, pay);
      var (st', out) := Drain(st1);
      RangeOne(pay, st.expected);
      RangeJoin(pay, st.expected, st.expected + 1, st'.expected);
    }
  }

  /** Draining takes a run of consecutive numbers out of what is waiting. */
  lemma {:induction false} DrainKeys(st: Reorder)
    ensures var st' := Drain(st).0;
      && st.expected <= st'.expected && st'.expected !in st'.pending
      && forall s :: s in st.pending <==> st.expected <= s < st'.expected || s in st'.pending
    decreases |st.pending|
  {
    if st.expected in st.pending {
      var st1 := Reorder(st.expected + 1, st.pending - {st.expected});
      DrainKeys(st1);
      assert forall s :: s in st.pending <==> s == st.expected || s in st1.pending;
    }
  }

  // ----- Runs -----

  /** State and total output after the packets numbered `arrivals`, each carrying its number's payload. */
  ghost function Run(cap: nat, init: nat, pay: nat -> Payload, arrivals: seq<nat>): (Reorder, seq<Payload>) {
    if arrivals == [] then (Reorder(init, map[]), [])
    else
      var n := |arrivals| - 1;
      var (st, out) := Run(cap, init, pay, arrivals[..n]);
      var (st', more) := Arrive(cap, st, arrivals[n], pay(arrivals[n]));
      (st', out + more)
  }

  ghost predicate NonEmpty(pay: nat -> Payload, arrivals: seq<nat>) {
    forall i :: 0 <= i < |arrivals| ==> pay(arrivals[i]) != ""
  }

  ghost predicate Ordered(cap: nat, init: nat, pay: nat -> Payload, st: Reorder, out: seq<Payload>) {
    && init <= st.expected && InWindow(cap, st) && Carries(pay, st)
    && out == Range(pay, init, st.expected)
  }

  lemma ArriveOrdered(cap: nat, init: nat, pay: nat -> Payload, st: Reorder, out: seq<Payload>, s: nat)
    requires Ordered(cap, init, pay, st, out) && pay(s) != ""
    ensures var (st', more) := Arrive(cap, st, s, pay(s));
      Ordered(cap, init, pay, st', out + more)
  {
    hide Drain, Range;
    if s == st.expected {
      var st1 := Reorder(st.expected + 1, st.pending);
      DrainSpec(cap, st1, pay);
      var (st', more) := Drain(st1);
      RangeOne(pay, s);
      RangeJoin(pay, init, s, s + 1);
      RangeJoin(pay, init, s + 1, st'.expected);
      assert out + ([pay(s)] + more) == (out + [pay(s)]) + more;
    }
  }

  /**
   After any arrivals with non-empty payloads, the output is exactly the payloads of the numbers
   from the initial one up to the expected one, once each and in order, and everything waiting
   lies strictly inside the window ahead of the expected number.
   */
  lemma {:induction false} OutputInOrder(cap: nat, init: nat, pay: nat -> Payload, arrivals: seq<nat>)
    requires NonEmpty(pay, arrivals)
    ensures var (st, out) := Run(cap, init, pay, arrivals);
      Ordered(cap, init, pay, st, out)
  {
    if arrivals != [] {
      var n := |arrivals| - 1;
      OutputInOrder(cap, init, pay, arrivals[..n]);
      var (st, out) := Run(cap, init, pay, arrivals[..n]);
      ArriveOrdered(cap, init, pay, st, out, arrivals[n]);
    }
  }

  /**
   A push emits one payload for every number it advances over, except exactly when the packet
   arrives in order with an empty payload.
   */
  lemma EmitsOnePerNumber(cap: nat, st: Reorder, s: nat, p: Payload)
    ensures var (st', out) := Arrive(cap, st, s, p);
      |out| == st'.expected - st.expected - (if s == st.expected && p == "" then 1 else 0)
  {
    if s == st.expected {
      DrainCount(Reorder(st.expected + 1, st.pending));
    }
  }

  /** Delivered or waiting. */
  ghost predicate Known(st: Reorder, x: nat) {
    x < st.expected || x in st.pending
  }

  /**
   In every state a push makes exactly its own number known, and only if it lies in the window;
   what was known stays known, and the delivery never stops short of a waiting number.
   */
  lemma KnownExactlyWhen(cap: nat, st: Reorder, s: nat, p: Payload, x: nat)
    requires InWindow(cap, st) && cap > 0
    ensures var st' := Arrive(cap, st, s, p).0;
      && (Known(st', x) <==> Known(st, x) || (x == s && st.expected <= s < st.expected + cap))
      && st'.expected !in st'.pending
  {
    hide Drain;
    if s == st.expected {
      DrainKeys(Reorder(st.expected + 1, st.pending));
    }
  }

  lemma {:induction false} DrainCount(st: Reorder)
    ensures var (st', out) := Drain(st); |out| == st'.expected - st.expected
    decreases |st.pending|
  {
    if st.expected in st.pending {
      DrainCount(Reorder(st.expected + 1, st.pending - {st.expected}));
    }
  }

  /** The numbers that have arrived are those already emitted and those waiting. */
  ghost predicate Accounts(init: nat, arrivals: seq<nat>, st: Reorder) {
    forall s :: s in arrivals <==> init <= s < st.expected || s in st.pending
  }

  lemma ArriveAccounts(cap: nat, init: nat, pay: nat -> Payload, st: Reorder, arrivals: seq<nat>, s: nat)
    requires init <= st.expected && InWindow(cap, st) && Carries(pay, st) && Accounts(init, arrivals, st)
    requires init <= s < init + cap
    ensures Accounts(init, arrivals + [s], Arrive(cap, st, s, pay(s)).0)
  {
    var st' := Arrive(cap, st, s, pay(s)).0;
    if s == st.expected {
      DrainKeys(Reorder(st.expected + 1, st.pending));
    }
    assert forall x :: x in arrivals + [s] <==> x in arrivals || x == s;
  }

  lemma {:induction false} RunAccounts(cap: nat, init: nat, pay: nat -> Payload, arrivals: seq<nat>)
    requires NonEmpty(pay, arrivals) && forall i :: 0 <= i < |arrivals| ==> init <= arrivals[i] < init + cap
    ensures Accounts(init, arrivals, Run(cap, init, pay, arrivals).0)
  {
    if arrivals != [] {
      var n := |arrivals| - 1;
      RunAccounts(cap, init, pay, arrivals[..n]);
      OutputInOrder(cap, init, pay, arrivals[..n]);
      ArriveAccounts(cap, init, pay, Run(cap, init, pay, arrivals[..n]).0, arrivals[..n], arrivals[n]);
      assert arrivals[..n] + [arrivals[n]] == arrivals;
    }
  }

  /**
   Any arrival order of `n` consecutive numbers, `n` at most the capacity, comes out fully sorted:
   every payload once, in order, nothing left waiting. Repeats in the arrivals change nothing.
   */
  lemma AnyOrderComesOutSorted(cap: nat, init: nat, pay: nat -> Payload, arrivals: seq<nat>, n: nat)
    requires n <= cap && NonEmpty(pay, arrivals)
    requires forall s :: s in arrivals <==> init <= s < init + n
    ensures var (st, out) := Run(cap, init, pay, arrivals);
      out == Range(pay, init, init + n) && st == Reorder(init + n, map[])
  {
    assert forall i :: 0 <= i < |arrivals| ==> arrivals[i] in arrivals;
    RunAccounts(cap, init, pay, arrivals);
    OutputInOrder(cap, init, pay, arrivals);
    var st := Run(cap, init, pay, arrivals).0;
    assert st.expected !in st.pending;
    assert st.expected < init + n ==> st.expected in arrivals;
    assert st.expected >= init + n;
    assert st.expected > init + n ==> init + n in arrivals;
    assert forall s :: s !in st.pending;
  }

  /** The state after the expected packet is taken. */
  function Next(st: Reorder): Reorder {
    Reorder(st.expected + 1, st.pending - {st.expected})
  }

  /** Draining `start` is what has come out since, followed by draining what is left. */
  ghost predicate PartDrained(start: Reorder, out0: seq<Payload>, st: Reorder, out: seq<Payload>) {
    Drain(st).0 == Drain(start).0 && out + Drain(st).1 == out0 + Drain(start).1
  }

  lemma DrainTurn(start: Reorder, out0: seq<Payload>, st: Reorder, out: seq<Payload>)
    requires PartDrained(start, out0, st, out) && st.expected in st.pending
    ensures PartDrained(start, out0, Next(st), out + [st.pending[st.expected]])
  {
    var p := st.pending[st.expected];
    assert out + ([p] + Drain(Next(st)).1) == (out + [p]) + Drain(Next(st)).1;
  }

  lemma DrainOver(start: Reorder, out0: seq<Payload>, st: Reorder, out: seq<Payload>)
    requires PartDrained(start, out0, st, out) && st.expected !in st.pending
    ensures st == Drain(start).0 && out == out0 + Drain(start).1
  {
    assert out + [] == out;
  }

  // ----- The masked ring -----

  datatype Slot = Slot(seqNum: nat, payload: Payload, occupied: bool)

  class SequenceReorderBuffer {
    const ring: array<Slot>
    var expected: nat
    var buffered: nat
    var duplicates: nat
    var overflows: nat

    /** What is waiting in the ring. */
    ghost var pending: map<nat, Payload>

    ghost function Model(): Reorder
      reads this
    {
      Reorder(expected, pending)
    }

    /** Slot `s` masked is occupied by number `s` exactly when `s` is waiting, with its payload. */
    ghost predicate Mirrors()
      reads this, ring
    {
      && ring.Length > 0
      && (forall s :: s in pending ==> ring[s % ring.Length] == Slot(s, pending[s], true))
      && (forall j :: 0 <= j < ring.Length && ring[j].occupied ==>
            ring[j].seqNum in pending && ring[j].seqNum % ring.Length == j)
    }

    ghost predicate Valid()
      reads this, ring
    {
      Mirrors() && InWindow(ring.Length, Model())
    }

    constructor (capacity: nat, initial: nat)
      requires capacity > 0
      ensures Valid() && Model() == Reorder(initial, map[]) && ring.Length == capacity && fresh(ring)
      ensures buffered == 0 && duplicates == 0 && overflows == 0
    {
      ring := new Slot[capacity](_ => Slot(0, "", false));
      expected, buffered, duplicates, overflows, pending := initial, 0, 0, 0, map[];
    }

    /** Two waiting numbers never share a slot. */
    lemma WindowSlots(s: nat)
      requires Mirrors() && Draining(ring.Length, Model()) && expected <= s < expected + ring.Length
      ensures forall t :: t in pending && t != s ==> t % ring.Length != s % ring.Length
    {
      forall t | t in pending && t != s
        ensures t % ring.Length != s % ring.Length
      {
        if t < s {
          SlotsDiffer(t, s, ring.Length);
        } else {
          SlotsDiffer(s, t, ring.Length);
        }
      }
    }

    method StoreSlot(s: nat, p: Payload)
      requires Valid() && expected < s < expected + ring.Length
      modifies ring, this`pending
      ensures Valid() && pending == old(pending)[s := p]
    {
      WindowSlots(s);
      ring[s % ring.Length] := Slot(s, p, true);
      pending := pending[s := p];
    }

    /** Whether the expected packet is in its slot; if so it is taken out. */
    method TakeExpected() returns (found: bool, p: Payload)
      requires Mirrors() && Draining(ring.Length, Model())
      modifies this`expected, this`pending, ring
      ensures Mirrors() && Draining(ring.Length, Model())
      ensures found == (old(expected) in old(pending))
      ensures found ==> p == old(pending)[old(expected)]
      ensures found ==> Model() == Next(old(Model()))
      ensures !found ==> expected == old(expected) && pending == old(pending)
    {
      var index := expected % ring.Length;
      var slot := ring[index];
      found, p := slot.occupied && slot.seqNum == expected, slot.payload;
      if found {
        WindowSlots(expected);
        ring[index] := slot.(occupied := false);
        pending := pending - {expected};
        expected := expected + 1;
      }
    }

    method DrainBuffered(out0: seq<Payload>) returns (out: seq<Payload>)
      requires Mirrors() && Draining(ring.Length, Model())
      modifies this`expected, this`pending, ring
      ensures Valid()
      ensures Model() == Drain(old(Model())).0 && out == out0 + Drain(old(Model())).1
    {
      out := out0;
      ghost var start := Model();
      while true
        invariant Mirrors() && Draining(ring.Length, Model())
        invariant PartDrained(start, out0, Model(), out)
        decreases pending.Keys
      {
        ghost var st := Model();
        var found, p := TakeExpected();
        if !found {
          assert Model().expected !in Model().pending;
          break;
        }
        DrainTurn(start, out0, st, out);
        out := out + [p];
      }
      DrainOver(start, out0, Model(), out);
    }

    /** Processes one packet and returns what it emits; a packet that is stored has to fit a slot's 511 bytes. */
    method Push(s: nat, payload: Payload) returns (out: seq<Payload>)
      requires Valid() && (expected < s < expected + ring.Length ==> |payload| < MAX_PAYLOAD)
      modifies this, ring
      ensures Valid()
      ensures (Model(), out) == Arrive(ring.Length, old(Model()), s, payload)
      ensures buffered == old(buffered) + (if old(expected) < s < old(expected) + ring.Length then 1 else 0)
      ensures overflows == old(overflows) + (if s >= old(expected) + ring.Length then 1 else 0)
      ensures duplicates == old(duplicates) + (if s < old(expected) then 1 else 0)
    {
      out := [];
      if s == expected {
        out := EmitNow(payload);
        expected := expected + 1;
        out := DrainBuffered(out);
      } else if s > expected {
        if s < expected + ring.Length {
          StoreSlot(s, payload);
          buffered := buffered + 1;
        } else {
          overflows := overflows + 1;
        }
      } else {
        duplicates := duplicates + 1;
      }
    }
  }
}
