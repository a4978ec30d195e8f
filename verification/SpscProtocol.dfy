/**
 The single-producer single-consumer queue as a two-thread protocol. Each step is one atomic
 load or store of an index, or one slot copy; steps are interleaved arbitrarily and are
 sequentially consistent. A single push or pop is a batch of one.
 */
module SpscProtocol {
  import opened Basics
  import opened Modular

  /** Where the producer is: between calls, about to reload the read index, or copying `k` items in. */
  datatype Producer<T> = PIdle | PRefresh(items: seq<T>) | PCopy(items: seq<T>, k: nat, done: nat)

  /** Where the consumer is: between calls, about to reload the write index, or copying `k` items out. */
  datatype Consumer<T> = CIdle | CRefresh(max: nat) | CCopy(k: nat, out: seq<T>)

  /** The shared memory: the ring, the two indices, and each side's stale copy of the other's index. */
  datatype Memory<T> = Memory(buf: seq<T>, writePos: nat, readPos: nat, cachedRead: nat, cachedWrite: nat)

  /** Unbounded history behind the masked indices: all items ever published and ever taken. */
  datatype History<T> = History(pushed: seq<T>, popped: seq<T>, cachedRead: nat, cachedWrite: nat)

  datatype State<T> = State(m: Memory<T>, prod: Producer<T>, cons: Consumer<T>, h: History<T>)

  datatype Action<T> = BeginPush(items: seq<T>) | ProducerStep | BeginPop(max: nat) | ConsumerStep

  /** Free slots by the producer's formula. */
  function FreeSlots(cap: nat, read: nat, write: nat): int {
    if read > write then read - write - 1 else cap - write + read - 1
  }

  /** Available items by the consumer's formula. */
  function Available(cap: nat, read: nat, write: nat): int {
    if write >= read then write - read else cap - read + write
  }

  function Clip(count: int): nat {
    if count < 0 then 0 else count
  }

  function StartCopy<T>(cap: nat, read: nat, write: nat, items: seq<T>): Producer<T> {
    PCopy(items, Min(Clip(FreeSlots(cap, read, write)), |items|), 0)
  }

  function StartTake<T>(cap: nat, read: nat, write: nat, max: nat): Consumer<T> {
    CCopy(Min(Clip(Available(cap, read, write)), max), [])
  }

  ghost function Step<T>(s: State<T>, a: Action<T>): State<T> {
    var cap := |s.m.buf|;
    match a
    case BeginPush(items) =>
      if !s.prod.PIdle? then s
      else if FreeSlots(cap, s.m.cachedRead, s.m.writePos) < |items| then s.(prod := PRefresh(items))
      else s.(prod := StartCopy(cap, s.m.cachedRead, s.m.writePos, items))
    case ProducerStep => StepProducer(s)
    case BeginPop(max) =>
      if !s.cons.CIdle? then s
      else if s.m.readPos == s.m.cachedWrite then s.(cons := CRefresh(max))
      else s.(cons := StartTake(cap, s.m.readPos, s.m.cachedWrite, max))
    case ConsumerStep => StepConsumer(s)
  }

  ghost function StepProducer<T>(s: State<T>): State<T> {
    var cap := |s.m.buf|;
    match s.prod
    case PIdle => s
    case PRefresh(items) =>
      s.(m := s.m.(cachedRead := s.m.readPos),
         prod := StartCopy(cap, s.m.readPos, s.m.writePos, items),
         h := s.h.(cachedRead := |s.h.popped|))
    case PCopy(items, k, done) =>
      if cap == 0 then s
      else if done < k && done < |items| then
        s.(m := s.m.(buf := s.m.buf[(s.m.writePos + done) % cap := items[done]]), prod := PCopy(items, k, done + 1))
      else
        s.(m := s.m.(writePos := (s.m.writePos + k) % cap), prod := PIdle,
           h := s.h.(pushed := s.h.pushed + items[..Min(k, |items|)]))
  }

  ghost function StepConsumer<T>(s: State<T>): State<T> {
    var cap := |s.m.buf|;
    match s.cons
    case CIdle => s
    case CRefresh(max) =>
      var s' := s.(m := s.m.(cachedWrite := s.m.writePos), h := s.h.(cachedWrite := |s.h.pushed|));
      if s.m.readPos == s.m.writePos then s'.(cons := CIdle)
      else s'.(cons := StartTake(cap, s.m.readPos, s.m.writePos, max))
    case CCopy(k, out) =>
      if cap == 0 then s
      else if |out| < k then
        s.(cons := CCopy(k, out + [s.m.buf[(s.m.readPos + |out|) % cap]]))
      else
        s.(m := s.m.(readPos := (s.m.readPos + k) % cap), cons := CIdle, h := s.h.(popped := s.h.popped + out))
  }

  ghost function Run<T>(s: State<T>, acts: seq<Action<T>>): State<T> {
    if acts == [] then s else Step(Run(s, acts[..|acts| - 1]), acts[|acts| - 1])
  }

  /** A freshly constructed queue, whatever its buffer holds. */
  ghost predicate Init<T>(s: State<T>) {
    && |s.m.buf| > 1
    && s == State(Memory(s.m.buf, 0, 0, 0, 0), PIdle, CIdle, History([], [], 0, 0))
  }

  // ----- The invariant -----

  /** The ordering of the counters: cached read, read, cached write, write, one slot short of a full turn. */
  ghost predicate Ordered<T>(s: State<T>) {
    var cap := |s.m.buf|;
    && cap > 1
    && s.h.cachedRead <= |s.h.popped| <= s.h.cachedWrite <= |s.h.pushed| <= s.h.cachedRead + cap - 1
  }

  /** The machine's indices are the counters, masked. */
  ghost predicate Masked<T>(s: State<T>) {
    var cap := |s.m.buf|;
    && cap > 1
    && s.m.writePos == |s.h.pushed| % cap && s.m.readPos == |s.h.popped| % cap
    && s.m.cachedRead == s.h.cachedRead % cap && s.m.cachedWrite == s.h.cachedWrite % cap
  }

  /** Every published, untaken item is in its slot, and taken items are the first published ones. */
  ghost predicate Fifo<T>(s: State<T>) {
    var cap := |s.m.buf|;
    && cap > 1
    && |s.h.popped| <= |s.h.pushed|
    && s.h.popped == s.h.pushed[..|s.h.popped|]
    && forall i :: |s.h.popped| <= i < |s.h.pushed| ==> s.m.buf[i % cap] == s.h.pushed[i]
  }

  ghost predicate ProducerOk<T>(s: State<T>) {
    var cap := |s.m.buf|;
    cap > 1 &&
    match s.prod
    case PCopy(items, k, done) =>
      && done <= k <= |items|
      && |s.h.pushed| + k <= s.h.cachedRead + cap - 1
      && forall i :: 0 <= i < done ==> s.m.buf[(|s.h.pushed| + i) % cap] == items[i]
    case _ => true
  }

  ghost predicate ConsumerOk<T>(s: State<T>) {
    match s.cons
    case CCopy(k, out) =>
      && |out| <= k && |s.h.popped| + k <= s.h.cachedWrite <= |s.h.pushed|
      && out == s.h.pushed[|s.h.popped|..|s.h.popped| + |out|]
    case _ => true
  }

  ghost predicate Inv<T>(s: State<T>) {
    Ordered(s) && Masked(s) && Fifo(s) && ProducerOk(s) && ConsumerOk(s)
  }

  /** The producer's free-slot formula on masked indices is the counter difference. */
  lemma FreeIsDifference(cap: nat, r: nat, w: nat)
    requires cap > 1 && r <= w <= r + cap - 1
    ensures FreeSlots(cap, r % cap, w % cap) == r + cap - 1 - w
  {
    ModAdd(r, w - r, cap);
  }

  /** The consumer's availability formula on masked indices is the counter difference. */
  lemma AvailableIsDifference(cap: nat, r: nat, w: nat)
    requires cap > 1 && r <= w <= r + cap - 1
    ensures Available(cap, r % cap, w % cap) == w - r
    ensures r % cap == w % cap <==> r == w
  {
    ModAdd(r, w - r, cap);
  }

  /** Push's own fullness test is the batch test for one item, and likewise for the refresh. */
  lemma PushTest(cap: nat, read: nat, write: nat)
    requires cap > 1 && read < cap && write < cap
    ensures (write + 1) % cap == read <==> FreeSlots(cap, read, write) < 1
  {
    ModSmall(write + 1, cap);
  }

  lemma InitInv<T>(s: State<T>)
    requires Init(s)
    ensures Inv(s)
  {
  }

  lemma BeginPushInv<T>(s: State<T>, items: seq<T>)
    requires Inv(s)
    ensures Inv(Step(s, BeginPush(items)))
  {
    FreeIsDifference(|s.m.buf|, s.h.cachedRead, |s.h.pushed|);
  }

  lemma BeginPopInv<T>(s: State<T>, max: nat)
    requires Inv(s)
    ensures Inv(Step(s, BeginPop(max)))
  {
    AvailableIsDifference(|s.m.buf|, |s.h.popped|, s.h.cachedWrite);
  }

  lemma RefreshReadInv<T>(s: State<T>)
    requires Inv(s) && s.prod.PRefresh?
    ensures Inv(StepProducer(s))
  {
    FreeIsDifference(|s.m.buf|, |s.h.popped|, |s.h.pushed|);
  }

  lemma RefreshWriteInv<T>(s: State<T>)
    requires Inv(s) && s.cons.CRefresh?
    ensures Inv(StepConsumer(s))
  {
    AvailableIsDifference(|s.m.buf|, |s.h.popped|, |s.h.pushed|);
  }

  /** The slot the producer is about to fill holds no published, untaken item, and is not one it has just filled. */
  lemma CopySlotFree<T>(s: State<T>, i: nat)
    requires Inv(s) && s.prod.PCopy? && s.prod.done < s.prod.k
    requires |s.h.popped| <= i < |s.h.pushed| + s.prod.done
    ensures i % |s.m.buf| != (s.m.writePos + s.prod.done) % |s.m.buf|
    ensures (s.m.writePos + s.prod.done) % |s.m.buf| == (|s.h.pushed| + s.prod.done) % |s.m.buf|
  {
    var cap := |s.m.buf|;
    ModAdd(|s.h.pushed|, s.prod.done, cap);
    SlotsDiffer(i, |s.h.pushed| + s.prod.done, cap);
  }

  lemma CopySlot<T>(s: State<T>)
    requires Inv(s) && s.prod.PCopy? && s.prod.done < s.prod.k
    ensures (s.m.writePos + s.prod.done) % |s.m.buf| == (|s.h.pushed| + s.prod.done) % |s.m.buf|
  {
    ModAdd(|s.h.pushed|, s.prod.done, |s.m.buf|);
  }

  lemma CopyInv<T>(s: State<T>)
    requires Inv(s) && s.prod.PCopy? && s.prod.done < s.prod.k
    ensures Inv(StepProducer(s))
  {
    var cap := |s.m.buf|;
    var s' := StepProducer(s);
    CopySlot(s);
    forall i | |s.h.popped| <= i < |s.h.pushed|
      ensures s'.m.buf[i % cap] == s'.h.pushed[i]
    {
      CopySlotFree(s, i);
    }
    forall i | 0 <= i < s.prod.done + 1
      ensures s'.m.buf[(|s.h.pushed| + i) % cap] == s.prod.items[i]
    {
      if i < s.prod.done {
        CopySlotFree(s, |s.h.pushed| + i);
      }
    }
  }

  lemma PublishInv<T>(s: State<T>)
    requires Inv(s) && s.prod.PCopy? && s.prod.done == s.prod.k
    ensures Inv(StepProducer(s))
  {
    var cap := |s.m.buf|;
    var w, k := |s.h.pushed|, s.prod.k;
    var s' := StepProducer(s);
    ModAdd(w, k, cap);
    assert s'.h.pushed == s.h.pushed + s.prod.items[..k];
    forall i | |s.h.popped| <= i < w + k
      ensures s'.m.buf[i % cap] == s'.h.pushed[i]
    {
      if i >= w {
        assert s.m.buf[(w + (i - w)) % cap] == s.prod.items[i - w];
      }
    }
    if s.cons.CCopy? {
      var r := |s.h.popped|;
      assert s'.h.pushed[r..r + |s.cons.out|] == s.h.pushed[r..r + |s.cons.out|];
    }
  }

  lemma TakeInv<T>(s: State<T>)
    requires Inv(s) && s.cons.CCopy? && |s.cons.out| < s.cons.k
    ensures Inv(StepConsumer(s))
  {
    var cap := |s.m.buf|;
    var r, d := |s.h.popped|, |s.cons.out|;
    ModAdd(r, d, cap);
    assert s.m.buf[(r + d) % cap] == s.h.pushed[r + d];
    assert s.h.pushed[r..r + d + 1] == s.h.pushed[r..r + d] + [s.h.pushed[r + d]];
  }

  lemma ReleaseInv<T>(s: State<T>)
    requires Inv(s) && s.cons.CCopy? && |s.cons.out| == s.cons.k
    ensures Inv(StepConsumer(s))
  {
    var r, k := |s.h.popped|, s.cons.k;
    ModAdd(r, k, |s.m.buf|);
    assert s.h.pushed[..r] + s.h.pushed[r..r + k] == s.h.pushed[..r + k];
  }

  lemma StepInv<T>(s: State<T>, a: Action<T>)
    requires Inv(s)
    ensures Inv(Step(s, a))
  {
    match a
    case BeginPush(items) => BeginPushInv(s, items);
    case BeginPop(max) => BeginPopInv(s, max);
    case ProducerStep =>
      if s.prod.PRefresh? {
        RefreshReadInv(s);
      } else if s.prod.PCopy? {
        if s.prod.done < s.prod.k {
          CopyInv(s);
        } else {
          PublishInv(s);
        }
      }
    case ConsumerStep =>
      if s.cons.CRefresh? {
        RefreshWriteInv(s);
      } else if s.cons.CCopy? {
        if |s.cons.out| < s.cons.k {
          TakeInv(s);
        } else {
          ReleaseInv(s);
        }
      }
  }

  /** Safety in every interleaving. */
  lemma {:induction false} Safety<T>(s: State<T>, acts: seq<Action<T>>)
    requires Init(s)
    ensures Inv(Run(s, acts))
  {
    if acts == [] {
      InitInv(s);
    } else {
      Safety(s, acts[..|acts| - 1]);
      StepInv(Run(s, acts[..|acts| - 1]), acts[|acts| - 1]);
    }
  }

  // ----- What the invariant means -----

  /** The items in the queue, read off the ring between the masked indices. */
  ghost function Contents<T>(m: Memory<T>): seq<T>
    requires |m.buf| > 1 && Available(|m.buf|, m.readPos, m.writePos) >= 0
  {
    seq(Available(|m.buf|, m.readPos, m.writePos), i requires 0 <= i => m.buf[(m.readPos + i) % |m.buf|])
  }

  lemma ContentsAreUntaken<T>(t: State<T>)
    requires Inv(t)
    ensures Available(|t.m.buf|, t.m.readPos, t.m.writePos) == |t.h.pushed| - |t.h.popped|
    ensures Contents(t.m) == t.h.pushed[|t.h.popped|..]
  {
    var cap, r, w := |t.m.buf|, |t.h.popped|, |t.h.pushed|;
    AvailableIsDifference(cap, r, w);
    var c := Contents(t.m);
    forall i | 0 <= i < |c|
      ensures c[i] == t.h.pushed[r..][i]
    {
      ModAdd(r, i, cap);
      assert t.m.buf[(r + i) % cap] == t.h.pushed[r + i];
    }
  }

  /** In every interleaving, what was pushed is what was popped followed by what is in the queue, in order. */
  lemma PushedIsPoppedThenQueued<T>(s: State<T>, acts: seq<Action<T>>)
    requires Init(s)
    ensures var t := Run(s, acts);
      && |t.m.buf| > 1 && 0 <= Available(|t.m.buf|, t.m.readPos, t.m.writePos) < |t.m.buf|
      && t.h.pushed == t.h.popped + Contents(t.m)
  {
    Safety(s, acts);
    ContentsAreUntaken(Run(s, acts));
  }

  /**
   No data race on slots, in every interleaving: the slot the producer writes next is neither an
   unread slot nor the slot the consumer reads next.
   */
  lemma NoOverwrite<T>(s: State<T>, acts: seq<Action<T>>)
    requires Init(s)
    ensures var t := Run(s, acts);
      var cap := |t.m.buf|;
      cap > 1 && (t.prod.PCopy? && t.prod.done < t.prod.k ==>
        && (forall i :: |t.h.popped| <= i < |t.h.pushed| ==> i % cap != (t.m.writePos + t.prod.done) % cap)
        && (t.cons.CCopy? && |t.cons.out| < t.cons.k ==>
              (t.m.readPos + |t.cons.out|) % cap != (t.m.writePos + t.prod.done) % cap))
  {
    hide Run;
    Safety(s, acts);
    var t := Run(s, acts);
    if t.prod.PCopy? && t.prod.done < t.prod.k {
      forall i | |t.h.popped| <= i < |t.h.pushed|
        ensures i % |t.m.buf| != (t.m.writePos + t.prod.done) % |t.m.buf|
      {
        CopySlotFree(t, i);
      }
      if t.cons.CCopy? && |t.cons.out| < t.cons.k {
        ModAdd(|t.h.popped|, |t.cons.out|, |t.m.buf|);
        CopySlotFree(t, |t.h.popped| + |t.cons.out|);
      }
    }
  }

  // ----- can_push -----

  ghost predicate CanPush<T>(s: State<T>) {
    |s.m.buf| > 1 && (s.m.writePos + 1) % |s.m.buf| != s.m.readPos
  }

  lemma CanPushMeans<T>(s: State<T>)
    requires Inv(s)
    ensures CanPush(s) <==> |s.h.pushed| - |s.h.popped| < |s.m.buf| - 1
  {
    var cap := |s.m.buf|;
    PushTest(cap, s.m.readPos, s.m.writePos);
    FreeIsDifference(cap, |s.h.popped|, |s.h.pushed|);
  }

  ghost predicate ConsumerOnly<T>(acts: seq<Action<T>>) {
    forall i :: 0 <= i < |acts| ==> acts[i].BeginPop? || acts[i].ConsumerStep?
  }

  /** Whatever the consumer does, a true can_push stays true until the producer pushes. */
  lemma {:induction false} CanPushIsStable<T>(s: State<T>, acts: seq<Action<T>>)
    requires Inv(s) && CanPush(s) && ConsumerOnly(acts)
    ensures Inv(Run(s, acts)) && CanPush(Run(s, acts)) && Run(s, acts).prod == s.prod
    ensures Run(s, acts).h.pushed == s.h.pushed && |Run(s, acts).m.buf| == |s.m.buf|
  {
    if acts != [] {
      var n := |acts| - 1;
      var t := Run(s, acts[..n]);
      CanPushIsStable(s, acts[..n]);
      StepInv(t, acts[n]);
      CanPushMeans(t);
      CanPushMeans(Step(t, acts[n]));
      assert |t.h.popped| <= |Step(t, acts[n]).h.popped|;
    }
  }

  lemma RefreshFindsRoom<T>(t: State<T>, x: T)
    requires Inv(t) && CanPush(t) && t.prod == PRefresh([x])
    ensures StepProducer(t).prod == PCopy([x], 1, 0)
  {
    CanPushMeans(t);
    FreeIsDifference(|t.m.buf|, |t.h.popped|, |t.h.pushed|);
  }

  /** After a true can_push, a push succeeds however the consumer interleaves: it never finds the queue full. */
  lemma CanPushThenPushSucceeds<T>(s: State<T>, x: T, acts: seq<Action<T>>)
    requires Inv(s) && CanPush(s) && s.prod.PIdle? && ConsumerOnly(acts)
    ensures var t := Step(Run(s, acts), BeginPush([x]));
      || t.prod == PCopy([x], 1, 0)
      || (t.prod == PRefresh([x]) && forall more :: ConsumerOnly(more) ==>
            StepProducer(Run(t, more)).prod == PCopy([x], 1, 0))
  {
    hide Run;
    CanPushIsStable(s, acts);
    var t0 := Run(s, acts);
    var t := Step(t0, BeginPush([x]));
    StepInv(t0, BeginPush([x]));
    if t.prod.PRefresh? {
      forall more: seq<Action<T>> | ConsumerOnly(more)
        ensures StepProducer(Run(t, more)).prod == PCopy([x], 1, 0)
      {
        CanPushIsStable(t, more);
        RefreshFindsRoom(Run(t, more), x);
      }
    }
  }

  // ----- size and empty, each with two loads that other steps may come between -----

  /** Steps only add to what has been pushed and popped, and never resize the ring. */
  lemma {:induction false} RunGrows<T>(s: State<T>, acts: seq<Action<T>>)
    requires Inv(s)
    ensures var t := Run(s, acts);
      Inv(t) && |s.h.pushed| <= |t.h.pushed| && |s.h.popped| <= |t.h.popped| && |t.m.buf| == |s.m.buf|
  {
    hide Inv;
    if acts != [] {
      RunGrows(s, acts[..|acts| - 1]);
      StepInv(Run(s, acts[..|acts| - 1]), acts[|acts| - 1]);
    }
  }

  /**
   size, called by any thread: it loads the write index in state `s` and the read index after any
   further steps `acts`. The result is always a possible size, and it is the number of items
   published by the first load and still in the queue at the second exactly when the consumer has
   not gone past the first load meanwhile.
   */
  lemma SizeExactlyWhen<T>(s: State<T>, acts: seq<Action<T>>)
    requires Inv(s)
    ensures var t := Run(s, acts);
      var size := Available(|s.m.buf|, t.m.readPos, s.m.writePos);
      && 0 <= size < |s.m.buf|
      && (size == |s.h.pushed| - |t.h.popped| <==> |t.h.popped| <= |s.h.pushed|)
  {
    hide Run;
    RunGrows(s, acts);
    var t := Run(s, acts);
    if |t.h.popped| <= |s.h.pushed| {
      AvailableIsDifference(|s.m.buf|, |t.h.popped|, |s.h.pushed|);
    }
  }

  ghost predicate ProducerOnly<T>(acts: seq<Action<T>>) {
    forall i :: 0 <= i < |acts| ==> acts[i].BeginPush? || acts[i].ProducerStep?
  }

  lemma {:induction false} ProducerTakesNothing<T>(s: State<T>, acts: seq<Action<T>>)
    requires ProducerOnly(acts)
    ensures Run(s, acts).m.readPos == s.m.readPos && Run(s, acts).h.popped == s.h.popped
  {
    if acts != [] {
      ProducerTakesNothing(s, acts[..|acts| - 1]);
    }
  }

  /**
   empty, called by the consumer: between its two loads only the producer takes steps, and the
   answer is exact for the moment of the second load.
   */
  lemma EmptyIsExact<T>(s: State<T>, acts: seq<Action<T>>)
    requires Inv(s) && ProducerOnly(acts)
    ensures var t := Run(s, acts);
      s.m.readPos == t.m.writePos <==> t.h.popped == t.h.pushed
  {
    hide Run;
    RunGrows(s, acts);
    ProducerTakesNothing(s, acts);
    var t := Run(s, acts);
    AvailableIsDifference(|t.m.buf|, |t.h.popped|, |t.h.pushed|);
    assert t.h.pushed[..|t.h.pushed|] == t.h.pushed;
  }
}
