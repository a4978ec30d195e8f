/**
 The queue's operations as one thread executes them: single and batch, over the ring buffer.
 A batch moves up to two contiguous segments; it is proved to be a run of single operations.
 */
module SpscQueues {
  import opened Basics
  import opened Modular
  import opened SpscProtocol

  /** The unbounded counters behind the four indices. */
  datatype Counters = Counters(cachedRead: nat, read: nat, cachedWrite: nat, write: nat)

  ghost predicate Coherent<T>(m: Memory<T>, c: Counters) {
    var cap := |m.buf|;
    && cap > 1
    && c.cachedRead <= c.read <= c.cachedWrite <= c.write <= c.cachedRead + cap - 1
    && m.writePos == c.write % cap && m.readPos == c.read % cap
    && m.cachedRead == c.cachedRead % cap && m.cachedWrite == c.cachedWrite % cap
  }

  /** How far slot `j` lies behind the index `pos`, going round the ring. */
  function Offset(cap: nat, pos: nat, j: nat): (d: nat)
    requires pos < cap && j < cap
    ensures d < cap && (pos + d == j || pos + d == j + cap)
  {
    if j >= pos then j - pos else j + cap - pos
  }

  /** The ring with `items` written from index `pos` on, wrapping. */
  function RingWrite<T>(buf: seq<T>, pos: nat, items: seq<T>): (b: seq<T>)
    requires pos < |buf|
    ensures |b| == |buf|
    ensures forall j :: 0 <= j < |buf| ==>
      b[j] == if Offset(|buf|, pos, j) < |items| then items[Offset(|buf|, pos, j)] else buf[j]
  {
    seq(|buf|, j requires 0 <= j < |buf| =>
      if Offset(|buf|, pos, j) < |items| then items[Offset(|buf|, pos, j)] else buf[j])
  }

  /** `k` items read from index `pos` on, wrapping. */
  function RingRead<T>(buf: seq<T>, pos: nat, k: nat): (s: seq<T>)
    requires pos < |buf|
    ensures |s| == k
    ensures forall i :: 0 <= i < k ==> s[i] == buf[(pos + i) % |buf|]
  {
    seq(k, i requires 0 <= i < k => buf[(pos + i) % |buf|])
  }

  // ----- The four operations on memory -----

  ghost predicate Indexed<T>(m: Memory<T>) {
    |m.buf| > 1 && m.writePos < |m.buf| && m.readPos < |m.buf| && m.cachedRead < |m.buf| && m.cachedWrite < |m.buf|
  }

  ghost function PushOne<T>(m: Memory<T>, x: T): (Memory<T>, bool)
    requires Indexed(m)
  {
    var next := (m.writePos + 1) % |m.buf|;
    var m1 := if next == m.cachedRead then m.(cachedRead := m.readPos) else m;
    if next == m1.cachedRead then (m1, false)
    else (m1.(buf := RingWrite(m.buf, m.writePos, [x]), writePos := next), true)
  }

  ghost function PopOne<T>(m: Memory<T>): (Memory<T>, Option<T>)
    requires Indexed(m)
  {
    var m1 := if m.readPos == m.cachedWrite then m.(cachedWrite := m.writePos) else m;
    if m.readPos == m1.cachedWrite then (m1, None)
    else (m1.(readPos := (m.readPos + 1) % |m.buf|), Some(m.buf[m.readPos]))
  }

  ghost function PushMany<T>(m: Memory<T>, items: seq<T>): (Memory<T>, nat)
    requires Indexed(m)
  {
    var cap := |m.buf|;
    var m1 := if FreeSlots(cap, m.cachedRead, m.writePos) < |items| then m.(cachedRead := m.readPos) else m;
    var k := Min(Clip(FreeSlots(cap, m1.cachedRead, m.writePos)), |items|);
    (m1.(buf := RingWrite(m.buf, m.writePos, items[..k]), writePos := (m.writePos + k) % cap), k)
  }

  ghost function PopMany<T>(m: Memory<T>, max: nat): (Memory<T>, seq<T>)
    requires Indexed(m)
  {
    var cap := |m.buf|;
    var m1 := if m.readPos == m.cachedWrite then m.(cachedWrite := m.writePos) else m;
    if m.readPos == m1.cachedWrite then (m1, [])
    else
      var k := Min(Clip(Available(cap, m.readPos, m1.cachedWrite)), max);
      (m1.(readPos := (m.readPos + k) % cap), RingRead(m.buf, m.readPos, k))
  }

  // ----- A batch is a run of single operations -----

  /** Push all items one by one; None as soon as one is refused. */
  ghost function PushEach<T>(m: Memory<T>, items: seq<T>): Option<Memory<T>> {
    if items == [] then Some(m)
    else
      var n := |items| - 1;
      var o := PushEach(m, items[..n]);
      if o.None? || !Indexed(o.value) then None
      else
        var (m', ok) := PushOne(o.value, items[n]);
        if ok then Some(m') else None
  }

  /** Pop `k` items one by one; None as soon as the queue is found empty. */
  ghost function PopEach<T>(m: Memory<T>, k: nat): Option<(Memory<T>, seq<T>)> {
    if k == 0 then Some((m, []))
    else
      var o := PopEach(m, k - 1);
      if o.None? || !Indexed(o.value.0) then None
      else
        var (m', x) := PopOne(o.value.0);
        if x.Some? then Some((m', o.value.1 + [x.value])) else None
  }

  /**
   A single push answers true exactly when the queue has room, and is then the batch push of one
   item. A refused push leaves everything but the stale read index as it was, and reloads that
   index; a push reloads it only when it has to.
   */
  lemma PushOneExactlyWhen<T>(m: Memory<T>, c: Counters, x: T)
    requires Coherent(m, c)
    ensures Indexed(m)
    ensures var (m', ok) := PushOne(m, x);
      && (ok <==> c.write - c.read < |m.buf| - 1)
      && (!ok ==> m' == m.(cachedRead := m.readPos))
      && (c.write - c.cachedRead < |m.buf| - 1 ==> m'.cachedRead == m.cachedRead)
      && PushMany(m, [x]) == (m', if ok then 1 else 0)
  {
    var cap := |m.buf|;
    PushTest(cap, m.cachedRead, m.writePos);
    PushTest(cap, m.readPos, m.writePos);
    FreeIsDifference(cap, c.cachedRead, c.write);
    FreeIsDifference(cap, c.read, c.write);
    assert [x][..1] == [x] && [x][..0] == [];
    WriteNone(m.buf, m.writePos, [x][..0]);
    ModSmall(m.writePos, cap);
  }

  lemma ReadOne<T>(buf: seq<T>, pos: nat)
    requires pos < |buf|
    ensures RingRead(buf, pos, 1) == [buf[pos]]
  {
    ModSmall(pos, |buf|);
  }

  /**
   A single pop returns an item exactly when there is one, the oldest, and is then the batch pop
   of at most one. An empty pop only reloads the stale write index.
   */
  lemma PopOneExactlyWhen<T>(m: Memory<T>, c: Counters)
    requires Coherent(m, c)
    ensures Indexed(m)
    ensures var (m', x) := PopOne(m);
      && (x.Some? <==> c.read < c.write)
      && (x.Some? ==> x.value == m.buf[c.read % |m.buf|])
      && (x.None? ==> m' == m.(cachedWrite := m.writePos))
      && (c.read < c.cachedWrite ==> m'.cachedWrite == m.cachedWrite)
      && PopMany(m, 1) == (m', if x.Some? then [x.value] else [])
  {
    hide RingRead;
    AvailableIsDifference(|m.buf|, c.read, c.cachedWrite);
    AvailableIsDifference(|m.buf|, c.read, c.write);
    ReadOne(m.buf, m.readPos);
  }

  /** One push onto a queue with room: the counter moves by one and one slot is written. */
  lemma PushOneHasRoom<T>(m: Memory<T>, c: Counters, x: T)
    requires Coherent(m, c) && c.write - c.read < |m.buf| - 1
    ensures Indexed(m)
    ensures var (m', ok) := PushOne(m, x);
      && ok && m'.buf == RingWrite(m.buf, m.writePos, [x])
      && m'.writePos == (c.write + 1) % |m.buf| && m'.readPos == m.readPos && m'.cachedWrite == m.cachedWrite
      && (Coherent(m', c.(write := c.write + 1)) || Coherent(m', c.(write := c.write + 1, cachedRead := c.read)))
  {
    var cap := |m.buf|;
    ModAdd(c.write, 1, cap);
    PushTest(cap, m.cachedRead, m.writePos);
    PushTest(cap, m.readPos, m.writePos);
    FreeIsDifference(cap, c.cachedRead, c.write);
    FreeIsDifference(cap, c.read, c.write);
  }

  /** Writing the next item extends a ring write by one. */
  lemma RingWriteSnoc<T>(buf: seq<T>, pos: nat, items: seq<T>, x: T)
    requires pos < |buf| && |items| < |buf|
    ensures RingWrite(RingWrite(buf, pos, items), (pos + |items|) % |buf|, [x]) == RingWrite(buf, pos, items + [x])
  {
    var cap, n := |buf|, |items|;
    var at := (pos + n) % cap;
    var a, b := RingWrite(RingWrite(buf, pos, items), at, [x]), RingWrite(buf, pos, items + [x]);
    forall j | 0 <= j < cap
      ensures a[j] == b[j]
    {
      OffsetOne(cap, pos, n, j);
    }
  }

  lemma OffsetOne(cap: nat, pos: nat, n: nat, j: nat)
    requires pos < cap && n < cap && j < cap
    ensures Offset(cap, (pos + n) % cap, j) == 0 <==> Offset(cap, pos, j) == n
  {
    ModSmall(pos + n, cap);
  }

  /** `m'` is `m` with `items` published; the producer's stale read counter is `r`. */
  ghost predicate Published<T>(m: Memory<T>, c: Counters, items: seq<T>, m': Memory<T>, r: nat) {
    && Coherent(m, c)
    && Coherent(m', c.(write := c.write + |items|, cachedRead := r))
    && m'.buf == RingWrite(m.buf, m.writePos, items)
    && m'.readPos == m.readPos && m'.cachedWrite == m.cachedWrite
  }

  lemma PublishOneMore<T>(m: Memory<T>, c: Counters, items: seq<T>, m1: Memory<T>, r1: nat, x: T) returns (r: nat)
    requires Published(m, c, items, m1, r1) && c.write - c.read + |items| < |m.buf| - 1
    ensures Indexed(m1) && PushOne(m1, x).1
    ensures Published(m, c, items + [x], PushOne(m1, x).0, r)
  {
    var c1 := c.(write := c.write + |items|, cachedRead := r1);
    PushOneHasRoom(m1, c1, x);
    ModAdd(c.write, |items|, |m.buf|);
    RingWriteSnoc(m.buf, m.writePos, items, x);
    r := if Coherent(PushOne(m1, x).0, c1.(write := c1.write + 1)) then r1 else c.read;
  }

  lemma {:induction false} PushEachHasRoom<T>(m: Memory<T>, c: Counters, items: seq<T>) returns (r: nat)
    requires Coherent(m, c) && c.write - c.read + |items| <= |m.buf| - 1
    ensures PushEach(m, items).Some? && Published(m, c, items, PushEach(m, items).value, r)
  {
    if items == [] {
      assert RingWrite(m.buf, m.writePos, items) == m.buf;
      r := c.cachedRead;
    } else {
      var n := |items| - 1;
      var r1 := PushEachHasRoom(m, c, items[..n]);
      r := PublishOneMore(m, c, items[..n], PushEach(m, items[..n]).value, r1, items[n]);
      assert items[..n] + [items[n]] == items;
    }
  }

  /** A batch push publishes as many items as fit. */
  lemma PushBatchPublishes<T>(m: Memory<T>, c: Counters, items: seq<T>)
    requires Coherent(m, c)
    ensures Indexed(m)
    ensures var (m', k) := PushMany(m, items);
      && k <= |items| && c.write - c.read + k <= |m.buf| - 1
      && (k < |items| ==> c.write - c.read + k == |m.buf| - 1)
      && m'.buf == RingWrite(m.buf, m.writePos, items[..k]) && m'.writePos == (c.write + k) % |m.buf|
      && m'.readPos == m.readPos && m'.cachedWrite == m.cachedWrite
  {
    var cap := |m.buf|;
    FreeIsDifference(cap, c.cachedRead, c.write);
    FreeIsDifference(cap, c.read, c.write);
    var k := PushMany(m, items).1;
    ModAdd(c.write, k, cap);
  }

  /** The same ring and indices, up to the producer's stale copy of the read index. */
  ghost predicate SameQueue<T>(a: Memory<T>, b: Memory<T>) {
    a.buf == b.buf && a.writePos == b.writePos && a.readPos == b.readPos && a.cachedWrite == b.cachedWrite
  }

  /**
   A batch push that reports `k` leaves the ring and the write index exactly as `k` single pushes,
   all of them successful, and pushes as many items as fit.
   */
  lemma PushBatchIsPushes<T>(m: Memory<T>, c: Counters, items: seq<T>, m': Memory<T>, k: nat)
    requires Coherent(m, c) && Indexed(m) && (m', k) == PushMany(m, items)
    ensures k <= |items| && PushEach(m, items[..k]).Some? && SameQueue(PushEach(m, items[..k]).value, m')
    ensures k == Min(|items|, |m.buf| - 1 - (c.write - c.read))
  {
    PushBatchPublishes(m, c, items);
    PushEachGives(m, c, items[..k], m');
  }

  lemma PushEachGives<T>(m: Memory<T>, c: Counters, batch: seq<T>, m': Memory<T>)
    requires Coherent(m, c) && c.write - c.read + |batch| <= |m.buf| - 1
    requires m'.buf == RingWrite(m.buf, m.writePos, batch) && m'.writePos == (c.write + |batch|) % |m.buf|
    requires m'.readPos == m.readPos && m'.cachedWrite == m.cachedWrite
    ensures PushEach(m, batch).Some? && SameQueue(PushEach(m, batch).value, m')
  {
    hide RingWrite, PushEach;
    var r := PushEachHasRoom(m, c, batch);
  }

  lemma PopOneHasItem<T>(m: Memory<T>, c: Counters)
    requires Coherent(m, c) && c.read < c.write
    ensures Indexed(m)
    ensures var (m', x) := PopOne(m);
      var w := if c.read == c.cachedWrite then c.write else c.cachedWrite;
      && x == Some(m.buf[m.readPos])
      && Coherent(m', c.(read := c.read + 1, cachedWrite := w)) && m'.buf == m.buf
  {
    var cap := |m.buf|;
    ModAdd(c.read, 1, cap);
    AvailableIsDifference(cap, c.read, c.cachedWrite);
    AvailableIsDifference(cap, c.read, c.write);
  }

  /** `m'` is `m` with `k` items taken, returned as `out`; the consumer's stale write counter is `w`. */
  ghost predicate Taken<T>(m: Memory<T>, c: Counters, k: nat, m': Memory<T>, out: seq<T>, w: nat) {
    && Coherent(m, c)
    && Coherent(m', c.(read := c.read + k, cachedWrite := w)) && m'.buf == m.buf
    && out == RingRead(m.buf, m.readPos, k)
  }

  lemma TakeOneMore<T>(m: Memory<T>, c: Counters, k: nat, m1: Memory<T>, out: seq<T>, w: nat)
    requires Taken(m, c, k, m1, out, w) && c.read + k < c.write
    ensures Indexed(m1) && PopOne(m1).1.Some?
    ensures Taken(m, c, k + 1, PopOne(m1).0, out + [PopOne(m1).1.value], if c.read + k == w then c.write else w)
  {
    PopOneHasItem(m1, c.(read := c.read + k, cachedWrite := w));
    ModAdd(c.read, k, |m.buf|);
  }

  lemma {:induction false} PopEachHasItems<T>(m: Memory<T>, c: Counters, k: nat) returns (w: nat)
    requires Coherent(m, c) && c.read + k <= c.write
    ensures PopEach(m, k).Some? && Taken(m, c, k, PopEach(m, k).value.0, PopEach(m, k).value.1, w)
    ensures w == if k > 0 && c.cachedWrite < c.read + k then c.write else c.cachedWrite
  {
    w := c.cachedWrite;
    if k > 0 {
      var w1 := PopEachHasItems(m, c, k - 1);
      TakeOneMore(m, c, k - 1, PopEach(m, k - 1).value.0, PopEach(m, k - 1).value.1, w1);
      w := if c.read + k - 1 == w1 then c.write else w1;
    }
  }

  lemma PopBatchTakes<T>(m: Memory<T>, c: Counters, max: nat)
    requires Coherent(m, c)
    ensures Indexed(m)
    ensures var (m', out) := PopMany(m, max);
      && |out| <= max && c.read + |out| <= c.write
      && out == RingRead(m.buf, m.readPos, |out|)
      && |out| == Min(max, (if c.read == c.cachedWrite then c.write else c.cachedWrite) - c.read)
      && m' == m.(readPos := (c.read + |out|) % |m.buf|,
                  cachedWrite := if c.read == c.cachedWrite then m.writePos else m.cachedWrite)
      && (c.cachedWrite < c.read + |out| ==> c.read == c.cachedWrite)
  {
    var cap := |m.buf|;
    AvailableIsDifference(cap, c.read, c.cachedWrite);
    AvailableIsDifference(cap, c.read, c.write);
    ModAdd(c.read, |PopMany(m, max).1|, cap);
  }

  /** A batch pop that returns `k` items returns what `k` single pops return and leaves the same memory. */
  lemma PopBatchIsPops<T>(m: Memory<T>, c: Counters, max: nat)
    requires Coherent(m, c)
    ensures Indexed(m)
    ensures var (m', out) := PopMany(m, max);
      && |out| <= max && PopEach(m, |out|).Some?
      && PopEach(m, |out|).value.1 == out
      && PopEach(m, |out|).value.0.readPos == m'.readPos
      && (out != [] ==> PopEach(m, |out|).value.0.cachedWrite == m'.cachedWrite)
      && |out| == Min(max, (if c.read == c.cachedWrite then c.write else c.cachedWrite) - c.read)
  {
    hide PopMany, PopEach, RingRead;
    PopBatchTakes(m, c, max);
    var w := PopEachHasItems(m, c, |PopMany(m, max).1|);
  }

  // ----- One thread alone runs the operations on memory -----

  ghost function Repeat<T>(s: State<T>, a: Action<T>, n: nat): State<T> {
    if n == 0 then s else Step(Repeat(s, a, n - 1), a)
  }

  lemma {:induction false} RepeatFirst<T>(s: State<T>, a: Action<T>, n: nat)
    ensures Repeat(s, a, n + 1) == Repeat(Step(s, a), a, n)
  {
    hide Step;
    if n > 0 {
      RepeatFirst(s, a, n - 1);
    }
  }

  /** A call by one thread and `n` further steps of it, with nothing in between. */
  ghost function Solo<T>(call: Action<T>, step: Action<T>, n: nat): seq<Action<T>> {
    [call] + seq(n, _ => step)
  }

  lemma {:induction false} SoloRun<T>(s: State<T>, call: Action<T>, step: Action<T>, n: nat)
    ensures Run(s, Solo(call, step, n)) == Repeat(Step(s, call), step, n)
  {
    hide Step;
    var acts := Solo(call, step, n);
    if n == 0 {
      assert acts == [call] && acts[..0] == [];
    } else {
      SoloRun(s, call, step, n - 1);
      assert acts[..n] == Solo(call, step, n - 1) && acts[n] == step;
    }
  }

  /** After `j` slot copies the first `j` items are in the ring. */
  lemma {:induction false} CopiesIn<T>(s: State<T>, j: nat)
    requires Indexed(s.m) && s.prod.PCopy? && s.prod.done == 0 && j <= s.prod.k <= |s.prod.items| && s.prod.k < |s.m.buf|
    ensures Repeat(s, ProducerStep, j) ==
      s.(m := s.m.(buf := RingWrite(s.m.buf, s.m.writePos, s.prod.items[..j])), prod := s.prod.(done := j))
  {
    hide RingWrite;
    if j == 0 {
      WriteNone(s.m.buf, s.m.writePos, s.prod.items[..0]);
    } else {
      CopiesIn(s, j - 1);
      WriteNext(s.m.buf, s.m.writePos, s.prod.items, j - 1);
    }
  }

  lemma WriteNone<T>(buf: seq<T>, pos: nat, items: seq<T>)
    requires pos < |buf| && items == []
    ensures RingWrite(buf, pos, items) == buf
  {
  }

  lemma WriteNext<T>(buf: seq<T>, pos: nat, items: seq<T>, j: nat)
    requires pos < |buf| && j < |items| && j < |buf|
    ensures RingWrite(buf, pos, items[..j])[(pos + j) % |buf| := items[j]] == RingWrite(buf, pos, items[..j + 1])
  {
    var b := RingWrite(buf, pos, items[..j]);
    RingWriteSnoc(buf, pos, items[..j], items[j]);
    assert items[..j] + [items[j]] == items[..j + 1];
    assert RingWrite(b, (pos + j) % |buf|, [items[j]]) == b[(pos + j) % |buf| := items[j]];
  }

  /** From the start of copying to the publication. */
  lemma CopiesAndPublishes<T>(s: State<T>)
    requires Indexed(s.m) && s.prod.PCopy? && s.prod.done == 0 && s.prod.k <= |s.prod.items| && s.prod.k < |s.m.buf|
    ensures var k, items := s.prod.k, s.prod.items;
      Repeat(s, ProducerStep, k + 1) ==
        s.(m := s.m.(buf := RingWrite(s.m.buf, s.m.writePos, items[..k]), writePos := (s.m.writePos + k) % |s.m.buf|),
           prod := PIdle, h := s.h.(pushed := s.h.pushed + items[..k]))
  {
    hide RingWrite;
    CopiesIn(s, s.prod.k);
  }

  /** The number of steps of a push that meets no interference. */
  ghost function PushSteps<T>(m: Memory<T>, items: seq<T>): nat
    requires Indexed(m)
  {
    (if FreeSlots(|m.buf|, m.cachedRead, m.writePos) < |items| then 1 else 0) + PushMany(m, items).1 + 1
  }

  /**
   The protocol's steps of a push, without interference, are the batch push: the same memory, the
   same count, and exactly the counted items published.
   */
  lemma PushAlone<T>(s: State<T>, items: seq<T>)
    requires Indexed(s.m) && s.prod.PIdle?
    ensures var t := Run(s, Solo(BeginPush(items), ProducerStep, PushSteps(s.m, items)));
      var (m', k) := PushMany(s.m, items);
      t.m == m' && t.prod.PIdle? && t.cons == s.cons && t.h.popped == s.h.popped
      && t.h.pushed == s.h.pushed + items[..k]
  {
    hide RingWrite, Repeat, Run;
    var n := PushSteps(s.m, items);
    SoloRun(s, BeginPush(items), ProducerStep, n);
    var t := Step(s, BeginPush(items));
    if t.prod.PRefresh? {
      RepeatFirst(t, ProducerStep, n - 1);
      CopiesAndPublishes(Step(t, ProducerStep));
    } else {
      CopiesAndPublishes(t);
    }
  }

  /** After `j` slot reads the first `j` items are out. */
  lemma {:induction false} CopiesOut<T>(s: State<T>, j: nat)
    requires Indexed(s.m) && s.cons.CCopy? && s.cons.out == [] && j <= s.cons.k
    ensures Repeat(s, ConsumerStep, j) == s.(cons := s.cons.(out := RingRead(s.m.buf, s.m.readPos, j)))
  {
    if j > 0 {
      CopiesOut(s, j - 1);
      assert RingRead(s.m.buf, s.m.readPos, j) ==
        RingRead(s.m.buf, s.m.readPos, j - 1) + [s.m.buf[(s.m.readPos + (j - 1)) % |s.m.buf|]];
    } else {
      assert RingRead(s.m.buf, s.m.readPos, 0) == [];
    }
  }

  lemma CopiesAndReleases<T>(s: State<T>)
    requires Indexed(s.m) && s.cons.CCopy? && s.cons.out == []
    ensures var k, out := s.cons.k, RingRead(s.m.buf, s.m.readPos, s.cons.k);
      Repeat(s, ConsumerStep, k + 1) ==
        s.(m := s.m.(readPos := (s.m.readPos + k) % |s.m.buf|), cons := CIdle, h := s.h.(popped := s.h.popped + out))
  {
    hide RingRead;
    CopiesOut(s, s.cons.k);
  }

  ghost function PopSteps<T>(m: Memory<T>, max: nat): nat
    requires Indexed(m)
  {
    var k := |PopMany(m, max).1|;
    if m.readPos != m.cachedWrite then k + 1 else if m.readPos != m.writePos then k + 2 else 1
  }

  /** The protocol's steps of a pop, without interference, are the batch pop: the same memory and the items it returns. */
  lemma PopAlone<T>(s: State<T>, max: nat)
    requires Indexed(s.m) && s.cons.CIdle?
    ensures var t := Run(s, Solo(BeginPop(max), ConsumerStep, PopSteps(s.m, max)));
      var (m', out) := PopMany(s.m, max);
      t.m == m' && t.cons.CIdle? && t.prod == s.prod && t.h.pushed == s.h.pushed && t.h.popped == s.h.popped + out
  {
    hide RingRead, Repeat, Run;
    var n := PopSteps(s.m, max);
    SoloRun(s, BeginPop(max), ConsumerStep, n);
    var t := Step(s, BeginPop(max));
    if t.cons.CRefresh? {
      RepeatFirst(t, ConsumerStep, n - 1);
      if s.m.readPos != s.m.writePos {
        CopiesAndReleases(Step(t, ConsumerStep));
      } else {
        NoSteps(Step(t, ConsumerStep), ConsumerStep);
      }
    } else {
      CopiesAndReleases(t);
    }
  }

  lemma NoSteps<T>(s: State<T>, a: Action<T>)
    ensures Repeat(s, a, 0) == s
  {
  }

  // ----- The queue object -----

  class SPSCQueue<T(0)> {
    const buffer: array<T>
    var writePos: nat
    var cachedReadPos: nat
    var readPos: nat
    var cachedWritePos: nat

    ghost function Mem(): Memory<T>
      reads this, buffer
    {
      Memory(buffer[..], writePos, readPos, cachedReadPos, cachedWritePos)
    }

    ghost predicate Valid()
      reads this, buffer
    {
      Indexed(Mem())
    }

    constructor (capacity: nat)
      requires capacity > 1
      ensures Valid() && fresh(buffer) && buffer.Length == capacity
      ensures Coherent(Mem(), Counters(0, 0, 0, 0))
    {
      buffer := new T[capacity];
      writePos, cachedReadPos, readPos, cachedWritePos := 0, 0, 0, 0;
      new;
      ModSmall(0, capacity);
    }

    method Push(item: T) returns (ok: bool)
      requires Valid()
      modifies this`writePos, this`cachedReadPos, buffer
      ensures Valid() && (Mem(), ok) == PushOne(old(Mem()), item)
    {
      var next := (writePos + 1) % buffer.Length;
      if next == cachedReadPos {
        cachedReadPos := readPos;
        if next == cachedReadPos {
          return false;
        }
      }
      buffer[writePos] := item;
      assert buffer[..] == RingWrite(old(buffer[..]), writePos, [item]);
      writePos := next;
      return true;
    }

    method Pop() returns (item: Option<T>)
      requires Valid()
      modifies this`readPos, this`cachedWritePos
      ensures Valid() && (Mem(), item) == PopOne(old(Mem()))
    {
      if readPos == cachedWritePos {
        cachedWritePos := writePos;
        if readPos == cachedWritePos {
          return None;
        }
      }
      item := Some(buffer[readPos]);
      readPos := (readPos + 1) % buffer.Length;
    }

    /** Copies `items` into the ring in at most two contiguous segments. */
    method CopyIn(items: seq<T>)
      requires writePos < buffer.Length && |items| <= buffer.Length
      modifies buffer
      ensures buffer[..] == RingWrite(old(buffer[..]), writePos, items)
    {
      var tail := buffer.Length - writePos;
      var first := Min(|items|, tail);
      for i := 0 to first
        invariant forall j :: 0 <= j < buffer.Length ==>
          buffer[j] == if writePos <= j < writePos + i then items[j - writePos] else old(buffer[j])
      {
        buffer[writePos + i] := items[i];
      }
      for i := first to |items|
        invariant forall j :: 0 <= j < buffer.Length ==>
          buffer[j] == if writePos <= j < writePos + first then items[j - writePos]
                       else if j < i - first then items[j + first] else old(buffer[j])
      {
        buffer[i - first] := items[i];
      }
    }

    method PushBatch(items: seq<T>) returns (k: nat)
      requires Valid()
      modifies this`writePos, this`cachedReadPos, buffer
      ensures Valid() && (Mem(), k) == PushMany(old(Mem()), items)
    {
      var free := FreeSlots(buffer.Length, cachedReadPos, writePos);
      if free < |items| {
        cachedReadPos := readPos;
        free := FreeSlots(buffer.Length, cachedReadPos, writePos);
      }
      k := Min(free, |items|);
      CopyIn(items[..k]);
      writePos := (writePos + k) % buffer.Length;
    }

    /** Copies `k` items out from the read index on, in at most two contiguous segments. */
    method CopyOut(k: nat) returns (out: seq<T>)
      requires readPos < buffer.Length && k <= buffer.Length
      ensures out == RingRead(buffer[..], readPos, k)
    {
      var first := Min(k, buffer.Length - readPos);
      out := buffer[readPos..readPos + first];
      if k > first {
        out := out + buffer[..k - first];
      }
      forall i | 0 <= i < k
        ensures out[i] == buffer[..][(readPos + i) % buffer.Length]
      {
        ModSmall(readPos + i, buffer.Length);
      }
    }

    /** Takes up to `max` items at once. */
    method PopBatch(max: nat) returns (out: seq<T>)
      requires Valid()
      modifies this`readPos, this`cachedWritePos
      ensures Valid() && (Mem(), out) == PopMany(old(Mem()), max)
    {
      hide RingRead;
      if readPos == cachedWritePos {
        cachedWritePos := writePos;
        if readPos == cachedWritePos {
          return [];
        }
      }
      var k := Min(Available(buffer.Length, readPos, cachedWritePos), max);
      out := CopyOut(k);
      readPos := (readPos + k) % buffer.Length;
    }

    /** What size, empty and can_push report of a quiescent queue holding the counters `c`. */
    method Observe(ghost c: Counters) returns (size: nat, empty: bool, canPush: bool)
      requires Valid() && Coherent(Mem(), c)
      ensures size == c.write - c.read
      ensures empty == (c.read == c.write)
      ensures canPush == (c.write - c.read < buffer.Length - 1)
    {
      AvailableIsDifference(buffer.Length, c.read, c.write);
      PushTest(buffer.Length, readPos, writePos);
      FreeIsDifference(buffer.Length, c.read, c.write);
      size := if writePos >= readPos then writePos - readPos else buffer.Length - readPos + writePos;
      empty := readPos == writePos;
      canPush := (writePos + 1) % buffer.Length != readPos;
    }
  }
}
