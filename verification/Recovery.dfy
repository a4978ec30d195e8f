/**
 Book recovery: updates that arrive while the book is out of sync are buffered; a snapshot then
 replaces the book and the buffered updates it does not cover are replayed. Only the bid side
 is touched by updates.
 */
module Recovery {
  import opened FlatBooks

  const MAX_LEVELS: nat := 1024

  datatype Update = Update(seqNum: nat, price: int, qty: nat, action: char)

  datatype Snapshot = Snapshot(lastSeq: nat, bids: seq<PriceQty>, asks: seq<PriceQty>)

  datatype Manager = Manager(
    recovering: bool, bids: seq<PriceQty>, asks: seq<PriceQty>, buffer: seq<Update>, lastApplied: nat,
    bufferedCount: nat, replayedCount: nat, discardedCount: nat)

  // ----- One side, one update -----

  function ApplyTo(s: seq<PriceQty>, u: Update): seq<PriceQty> {
    if u.action == '0' || u.action == '1' then Put(true, MAX_LEVELS, s, u.price, u.qty)
    else if u.action == '2' then Erase(true, s, u.price)
    else s
  }

  function ApplyList(s: seq<PriceQty>, us: seq<Update>): seq<PriceQty> {
    if us == [] then s else ApplyTo(ApplyList(s, us[..|us| - 1]), us[|us| - 1])
  }

  /** Levels of a snapshot list, inserted one by one into an empty side. */
  function Load(isBid: bool, levels: seq<PriceQty>): seq<PriceQty> {
    if levels == [] then []
    else Put(isBid, MAX_LEVELS, Load(isBid, levels[..|levels| - 1]), levels[|levels| - 1].price, levels[|levels| - 1].qty)
  }

  // ----- The manager -----

  /** The buffered updates a snapshot does not cover. */
  function Uncovered(us: seq<Update>, lastSeq: nat): (r: seq<Update>)
    ensures |r| <= |us|
  {
    if us == [] then []
    else
      var rest := Uncovered(us[..|us| - 1], lastSeq);
      if us[|us| - 1].seqNum <= lastSeq then rest else rest + [us[|us| - 1]]
  }

  function Incremental(m: Manager, u: Update): Manager {
    if m.recovering then m.(buffer := m.buffer + [u], bufferedCount := m.bufferedCount + 1)
    else m.(bids := ApplyTo(m.bids, u), lastApplied := u.seqNum)
  }

  function LastOf(us: seq<Update>, otherwise: nat): nat {
    if us == [] then otherwise else us[|us| - 1].seqNum
  }

  function TakeSnapshot(m: Manager, snap: Snapshot): Manager {
    var uncovered := Uncovered(m.buffer, snap.lastSeq);
    Manager(false, ApplyList(Load(true, snap.bids), uncovered), Load(false, snap.asks), [], LastOf(uncovered, snap.lastSeq),
            m.bufferedCount, |uncovered|, |m.buffer| - |uncovered|)
  }

  function Trigger(m: Manager): Manager {
    m.(recovering := true, buffer := [])
  }

  function Incrementals(m: Manager, us: seq<Update>): Manager {
    if us == [] then m else Incremental(Incrementals(m, us[..|us| - 1]), us[|us| - 1])
  }

  // ----- The bid side as a map -----

  type Side = map<int, nat>

  function ApplyMap(m: Side, u: Update): Side {
    if u.action == '0' || u.action == '1' then m[u.price := u.qty]
    else if u.action == '2' then m - {u.price}
    else m
  }

  function ApplyAll(m: Side, us: seq<Update>): Side {
    if us == [] then m else ApplyMap(ApplyAll(m, us[..|us| - 1]), us[|us| - 1])
  }

  function LoadMap(levels: seq<PriceQty>): Side {
    if levels == [] then map[]
    else LoadMap(levels[..|levels| - 1])[levels[|levels| - 1].price := levels[|levels| - 1].qty]
  }

  lemma {:induction false} ApplyAppend(m: Side, a: seq<Update>, b: seq<Update>)
    ensures ApplyAll(m, a + b) == ApplyAll(ApplyAll(m, a), b)
  {
    if b == [] {
      assert a + b == a;
    } else {
      assert (a + b)[..|a + b| - 1] == a + b[..|b| - 1];
      ApplyAppend(m, a, b[..|b| - 1]);
    }
  }

  // ----- Replaying updates that are already in changes nothing -----

  predicate Touches(u: Update, p: int) {
    u.price == p && (u.action == '0' || u.action == '1' || u.action == '2')
  }

  ghost predicate Touched(us: seq<Update>, p: int) {
    exists i :: 0 <= i < |us| && Touches(us[i], p)
  }

  ghost predicate SameAt(a: Side, b: Side, p: int) {
    (p in a <==> p in b) && (p in a ==> a[p] == b[p])
  }

  /** A touched price ends as the updates say, whatever was there; an untouched one stays. */
  lemma {:induction false} ApplyPointwise(a: Side, b: Side, us: seq<Update>, p: int)
    requires Touched(us, p) || SameAt(a, b, p)
    ensures SameAt(ApplyAll(a, us), ApplyAll(b, us), p)
  {
    if us != [] {
      var n := |us| - 1;
      if !Touches(us[n], p) {
        if Touched(us, p) {
          var i :| 0 <= i < |us| && Touches(us[i], p);
          assert Touches(us[..n][i], p);
        }
        ApplyPointwise(a, b, us[..n], p);
      }
    }
  }

  lemma TouchedLater(us: seq<Update>, n: nat, p: int)
    requires n <= |us|
    ensures Touched(us[..n], p) ==> Touched(us, p)
  {
    if Touched(us[..n], p) {
      var i :| 0 <= i < n && Touches(us[..n][i], p);
      assert Touches(us[i], p);
    }
  }

  lemma {:induction false} UntouchedStays(m: Side, us: seq<Update>, p: int)
    requires !Touched(us, p)
    ensures SameAt(ApplyAll(m, us), m, p)
  {
    if us != [] {
      var n := |us| - 1;
      assert !Touches(us[n], p);
      TouchedLater(us, n, p);
      UntouchedStays(m, us[..n], p);
    }
  }

  /** Update `i` is the last one to write price `p`. */
  ghost predicate LastAt(us: seq<Update>, p: int, i: nat) {
    i < |us| && Touches(us[i], p) && forall j :: i < j < |us| ==> !Touches(us[j], p)
  }

  /**
   After any updates a price shows what its last update says: its quantity after an add or a
   modification, nothing after a deletion; and what it showed before if no update wrote it.
   */
  lemma {:induction false} LastWriterWins(m: Side, us: seq<Update>, p: int, i: nat)
    ensures LastAt(us, p, i) && us[i].action == '2' ==> p !in ApplyAll(m, us)
    ensures LastAt(us, p, i) && us[i].action != '2' ==> p in ApplyAll(m, us) && ApplyAll(m, us)[p] == us[i].qty
    ensures !Touched(us, p) ==> SameAt(ApplyAll(m, us), m, p)
  {
    if !Touched(us, p) {
      UntouchedStays(m, us, p);
    }
    if LastAt(us, p, i) && i < |us| - 1 {
      var n := |us| - 1;
      assert !Touches(us[n], p);
      assert LastAt(us[..n], p, i);
      LastWriterWins(m, us[..n], p, i);
    }
  }

  lemma ReplayIsIdempotent(m: Side, us: seq<Update>)
    ensures ApplyAll(ApplyAll(m, us), us) == ApplyAll(m, us)
  {
    var once := ApplyAll(m, us);
    forall p
      ensures SameAt(ApplyAll(once, us), once, p)
    {
      if Touched(us, p) {
        ApplyPointwise(once, m, us, p);
      } else {
        UntouchedStays(once, us, p);
      }
    }
    SidesEqual(ApplyAll(once, us), once);
  }

  lemma SidesEqual(a: Side, b: Side)
    requires forall p :: SameAt(a, b, p)
    ensures a == b
  {
    forall p
      ensures p in a <==> p in b
      ensures p in a ==> a[p] == b[p]
    {
      assert SameAt(a, b, p);
    }
  }

  ghost predicate Listed(levels: seq<PriceQty>, p: int) {
    exists i :: 0 <= i < |levels| && levels[i].price == p
  }

  /** Entry `i` is the last one for its price. */
  ghost predicate LastEntry(levels: seq<PriceQty>, i: nat) {
    i < |levels| && forall j :: i < j < |levels| ==> levels[j].price != levels[i].price
  }

  /** A snapshot list shows exactly the prices in it, each with the quantity of its last entry. */
  lemma {:induction false} SnapshotShows(levels: seq<PriceQty>, p: int, i: nat)
    ensures p in LoadMap(levels) <==> Listed(levels, p)
    ensures LastEntry(levels, i) ==>
      levels[i].price in LoadMap(levels) && LoadMap(levels)[levels[i].price] == levels[i].qty
  {
    if levels != [] {
      var n := |levels| - 1;
      SnapshotShows(levels[..n], p, i);
      assert LastEntry(levels, i) && i < n ==> LastEntry(levels[..n], i);
      if Listed(levels[..n], p) {
        var k :| 0 <= k < n && levels[..n][k].price == p;
        assert levels[k].price == p;
      }
      if Listed(levels, p) {
        var k :| 0 <= k < |levels| && levels[k].price == p;
        assert k < n ==> levels[..n][k].price == p;
      }
    }
  }

  // ----- Independence of the cut point, on maps -----

  /** Consecutively numbered updates, the first one numbered `base + 1`. */
  ghost predicate Consecutive(us: seq<Update>, base: nat) {
    forall i :: 0 <= i < |us| ==> us[i].seqNum == base + i + 1
  }

  /** The snapshot covers updates one by one, by their numbers, in whatever order they were buffered. */
  lemma {:induction false} UncoveredSplits(a: seq<Update>, b: seq<Update>, u: Update, lastSeq: nat)
    ensures Uncovered(a + b, lastSeq) == Uncovered(a, lastSeq) + Uncovered(b, lastSeq)
    ensures Uncovered([u], lastSeq) == if u.seqNum <= lastSeq then [] else [u]
  {
    assert [u][..0] == [];
    if b == [] {
      assert a + b == a;
    } else {
      var n := |b| - 1;
      UncoveredSplits(a, b[..n], u, lastSeq);
      assert (a + b)[..|a + b| - 1] == a + b[..n];
    }
  }

  /** Of consecutively buffered updates, a snapshot leaves exactly a suffix. */
  lemma {:induction false} UncoveredIsSuffix(us: seq<Update>, base: nat, lastSeq: nat)
    requires Consecutive(us, base) && base <= lastSeq
    ensures Uncovered(us, lastSeq) == if lastSeq - base <= |us| then us[lastSeq - base..] else []
  {
    if us != [] {
      var n, d := |us| - 1, lastSeq - base;
      UncoveredIsSuffix(us[..n], base, lastSeq);
      assert us[n].seqNum == base + n + 1;
      if d <= n {
        assert Uncovered(us, lastSeq) == us[..n][d..] + [us[n]];
        assert us[..n][d..] + [us[n]] == us[d..];
      } else {
        assert Uncovered(us, lastSeq) == [];
        assert d == n + 1 ==> us[d..] == [];
      }
    }
  }

  /** The side after all of `us` does not depend on where a snapshot cut in. */
  lemma CutPointOnMaps(m: Side, us: seq<Update>, a: nat, b: nat, k: nat)
    requires a <= b <= |us| && a <= k <= |us|
    ensures var snap := ApplyAll(m, us[..k]);
      var replay := if k <= b then us[k..b] else [];
      ApplyAll(ApplyAll(snap, replay), us[b..]) == ApplyAll(m, us)
  {
    if k <= b {
      SplitAt(m, us[..b], k);
      assert us[..b][..k] == us[..k] && us[..b][k..] == us[k..b];
      SplitAt(m, us, b);
    } else {
      ReplayedTail(m, us, b, k);
    }
  }

  lemma SplitAt(m: Side, us: seq<Update>, k: nat)
    requires k <= |us|
    ensures ApplyAll(ApplyAll(m, us[..k]), us[k..]) == ApplyAll(m, us)
  {
    ApplyAppend(m, us[..k], us[k..]);
    assert us[..k] + us[k..] == us;
  }

  /** A snapshot ahead of the buffer: the live updates it already covers are applied again, without effect. */
  lemma ReplayedTail(m: Side, us: seq<Update>, b: nat, k: nat)
    requires b <= k <= |us|
    ensures ApplyAll(ApplyAll(m, us[..k]), us[b..]) == ApplyAll(m, us)
  {
    var snap := ApplyAll(m, us[..k]);
    SplitAt(m, us[..k], b);
    assert us[..k][..b] == us[..b] && us[..k][b..] == us[b..k];
    ReplayIsIdempotent(ApplyAll(m, us[..b]), us[b..k]);
    SplitAt(snap, us[b..], k - b);
    assert us[b..][..k - b] == us[b..k] && us[b..][k - b..] == us[k..];
    SplitAt(m, us, k);
  }

  /** The updates from `a` on make up for everything between the older side `old_` and the newer one `new_`. */
  ghost predicate MadeUp(old_: Side, new_: Side, us: seq<Update>) {
    forall p :: Touched(us, p) || SameAt(old_, new_, p)
  }

  /**
   A snapshot after `k` updates, followed by the updates from `a` on only: nothing is lost exactly
   when every price that the skipped updates changed is written again later.
   */
  lemma SkippedExactlyWhen(m: Side, us: seq<Update>, a: nat, k: nat)
    requires k <= a <= |us|
    ensures ApplyAll(ApplyAll(m, us[..k]), us[a..]) == ApplyAll(m, us) <==>
      MadeUp(ApplyAll(m, us[..k]), ApplyAll(m, us[..a]), us[a..])
  {
    var x, y, rest := ApplyAll(m, us[..k]), ApplyAll(m, us[..a]), us[a..];
    SplitAt(m, us, a);
    if MadeUp(x, y, rest) {
      forall p
        ensures SameAt(ApplyAll(x, rest), ApplyAll(y, rest), p)
      {
        ApplyPointwise(x, y, rest, p);
      }
      SidesEqual(ApplyAll(x, rest), ApplyAll(y, rest));
    } else {
      var p :| !Touched(rest, p) && !SameAt(x, y, p);
      UntouchedStays(x, rest, p);
      UntouchedStays(y, rest, p);
    }
  }

  // ----- The sorted arrays follow the maps while the prices fit -----

  /** Every price that occurs belongs to a set of at most 1024. */
  ghost predicate Fits(prices: set<int>, m: Side) {
    |prices| <= 1024 && m.Keys <= prices
  }

  ghost predicate PricedIn(us: seq<Update>, prices: set<int>) {
    forall i :: 0 <= i < |us| ==> us[i].price in prices
  }

  lemma RoomFor(isBid: bool, s: seq<PriceQty>, m: Side, prices: set<int>, p: int)
    requires Represents(isBid, s, m) && Fits(prices, m) && p in prices
    ensures p in m || |s| < MAX_LEVELS
  {
    SizeOfMap(isBid, s, m);
    if p !in m {
      SubsetSize(m.Keys + {p}, prices);
      assert |m.Keys + {p}| == |m.Keys| + 1;
    }
  }

  lemma {:induction false} SubsetSize(a: set<int>, b: set<int>)
    requires a <= b
    ensures |a| <= |b|
  {
    assert |b| == |a| + |b - a| by {
      assert a + (b - a) == b && a !! (b - a);
    }
  }

  lemma ApplyToRepresents(s: seq<PriceQty>, m: Side, u: Update, prices: set<int>)
    requires Represents(true, s, m) && Fits(prices, m) && u.price in prices
    ensures Represents(true, ApplyTo(s, u), ApplyMap(m, u)) && Fits(prices, ApplyMap(m, u))
  {
    RoomFor(true, s, m, prices, u.price);
    if u.action == '0' || u.action == '1' {
      PutRepresents(true, MAX_LEVELS, s, m, u.price, u.qty);
    } else if u.action == '2' {
      EraseRepresents(true, s, m, u.price);
    }
  }

  lemma {:induction false} ApplyListRepresents(s: seq<PriceQty>, m: Side, us: seq<Update>, prices: set<int>)
    requires Represents(true, s, m) && Fits(prices, m) && PricedIn(us, prices)
    ensures Represents(true, ApplyList(s, us), ApplyAll(m, us)) && Fits(prices, ApplyAll(m, us))
  {
    if us != [] {
      var n := |us| - 1;
      ApplyListRepresents(s, m, us[..n], prices);
      ApplyToRepresents(ApplyList(s, us[..n]), ApplyAll(m, us[..n]), us[n], prices);
    }
  }

  lemma {:induction false} LoadRepresents(isBid: bool, levels: seq<PriceQty>, prices: set<int>)
    requires |prices| <= 1024 && forall i :: 0 <= i < |levels| ==> levels[i].price in prices
    ensures Represents(isBid, Load(isBid, levels), LoadMap(levels)) && Fits(prices, LoadMap(levels))
  {
    if levels != [] {
      var n := |levels| - 1;
      var x := levels[n];
      LoadRepresents(isBid, levels[..n], prices);
      RoomFor(isBid, Load(isBid, levels[..n]), LoadMap(levels[..n]), prices, x.price);
      PutRepresents(isBid, MAX_LEVELS, Load(isBid, levels[..n]), LoadMap(levels[..n]), x.price, x.qty);
    }
  }

  // ----- The whole recovery -----

  lemma {:induction false} BufferingKeeps(m: Manager, us: seq<Update>)
    requires m.recovering
    ensures var m' := Incrementals(m, us);
      m' == m.(buffer := m.buffer + us, bufferedCount := m.bufferedCount + |us|)
  {
    if us == [] {
      assert m.buffer + us == m.buffer;
    } else {
      var n := |us| - 1;
      BufferingKeeps(m, us[..n]);
      assert m.buffer + us[..n] + [us[n]] == m.buffer + us;
    }
  }

  lemma {:induction false} LiveApplies(m: Manager, us: seq<Update>)
    requires !m.recovering
    ensures var m' := Incrementals(m, us);
      m' == m.(bids := ApplyList(m.bids, us), lastApplied := LastOf(us, m.lastApplied))
  {
    if us != [] {
      LiveApplies(m, us[..|us| - 1]);
    }
  }

  /** Buffer updates `a` to `b`, take the snapshot, then apply the rest live. */
  function Recover(m: Manager, us: seq<Update>, a: nat, b: nat, snap: Snapshot): Manager
    requires a <= b <= |us|
  {
    Incrementals(TakeSnapshot(Incrementals(m, us[a..b]), snap), us[b..])
  }

  /** The buffered updates `a` to `b` that a snapshot after `k` does not cover. */
  function Replayed(us: seq<Update>, a: nat, b: nat, k: nat): seq<Update>
    requires a <= b <= |us|
  {
    if k <= a then us[a..b] else if k <= b then us[k..b] else []
  }

  lemma RecoverSteps(m: Manager, us: seq<Update>, base: nat, a: nat, b: nat, k: nat, snap: Snapshot)
    requires m.recovering && m.buffer == [] && Consecutive(us, base)
    requires a <= b <= |us| && snap.lastSeq == base + k
    ensures var replay := Replayed(us, a, b, k);
      var r := Recover(m, us, a, b, snap);
      && !r.recovering
      && r.bids == ApplyList(ApplyList(Load(true, snap.bids), replay), us[b..])
      && r.asks == Load(false, snap.asks)
      && r.lastApplied == LastOf(us[b..], LastOf(replay, snap.lastSeq))
      && r.replayedCount == |replay| && r.discardedCount == (b - a) - |replay|
      && r.bufferedCount == m.bufferedCount + (b - a) && r.buffer == []
  {
    hide Uncovered, ApplyList, Load, Incrementals;
    var replay := Replayed(us, a, b, k);
    var m1 := Incrementals(m, us[a..b]);
    BufferingKeeps(m, us[a..b]);
    assert [] + us[a..b] == us[a..b];
    assert m1.buffer == us[a..b];
    UncoveredOf(us, base, a, b, k);
    var m2 := TakeSnapshot(m1, snap);
    assert m2.bids == ApplyList(Load(true, snap.bids), replay) && m2.lastApplied == LastOf(replay, snap.lastSeq);
    LiveApplies(m2, us[b..]);
  }

  lemma UncoveredOf(us: seq<Update>, base: nat, a: nat, b: nat, k: nat)
    requires Consecutive(us, base) && a <= b <= |us|
    ensures Uncovered(us[a..b], base + k) == Replayed(us, a, b, k)
  {
    hide Uncovered;
    var w := us[a..b];
    forall i | 0 <= i < |w|
      ensures w[i].seqNum == base + a + i + 1
    {
      assert w[i] == us[a + i];
    }
    if k <= a {
      NothingCovered(w, base + k);
    } else {
      UncoveredIsSuffix(w, base + a, base + k);
      if k <= b {
        assert w[k - a..] == us[k..b];
      }
    }
  }

  lemma {:induction false} NothingCovered(us: seq<Update>, lastSeq: nat)
    requires forall i :: 0 <= i < |us| ==> us[i].seqNum > lastSeq
    ensures Uncovered(us, lastSeq) == us
  {
    if us != [] {
      NothingCovered(us[..|us| - 1], lastSeq);
    }
  }

  /** The snapshot is the bid side after the first `k` of the numbered updates, and every price fits. */
  ghost predicate Faithful(m0: Side, us: seq<Update>, base: nat, k: nat, snap: Snapshot, prices: set<int>) {
    && Consecutive(us, base) && k <= |us| && snap.lastSeq == base + k
    && LoadMap(snap.bids) == ApplyAll(m0, us[..k])
    && Fits(prices, m0) && PricedIn(us, prices) && forall i :: 0 <= i < |snap.bids| ==> snap.bids[i].price in prices
  }

  /** The recovered bid side is the sorted form of the snapshot's map with the replayed and live updates applied. */
  lemma RecoveredMap(m: Manager, m0: Side, us: seq<Update>, base: nat, a: nat, b: nat, k: nat, snap: Snapshot,
                     prices: set<int>)
    requires m.recovering && m.buffer == [] && a <= b <= |us| && Faithful(m0, us, base, k, snap, prices)
    ensures Represents(true, Recover(m, us, a, b, snap).bids,
                       ApplyAll(ApplyAll(ApplyAll(m0, us[..k]), Replayed(us, a, b, k)), us[b..]))
  {
    hide ApplyList, ApplyAll, Load, LoadMap, Represents, Recover;
    RecoverSteps(m, us, base, a, b, k, snap);
    var replay := Replayed(us, a, b, k);
    var loaded := Load(true, snap.bids);
    LoadRepresents(true, snap.bids, prices);
    ApplyListRepresents(loaded, LoadMap(snap.bids), replay, prices);
    ApplyListRepresents(ApplyList(loaded, replay), ApplyAll(LoadMap(snap.bids), replay), us[b..], prices);
  }

  /**
   Recovery does not depend on the cut point. For consecutively numbered updates `us` and any
   snapshot that is the book after the first `k` of them, `k` no older than the first buffered
   update: buffering `us[a..b]`, replaying what the snapshot does not cover and then going live
   with the rest leaves exactly the bid side of applying every update directly, and the
   snapshot's asks.
   */
  lemma {:induction false} RecoveryIsCutIndependent(m: Manager, s0: seq<PriceQty>, m0: Side, us: seq<Update>, base: nat,
                                                    a: nat, b: nat, k: nat, snap: Snapshot, prices: set<int>)
    requires m.recovering && m.buffer == [] && a <= b <= |us| && a <= k
    requires Represents(true, s0, m0) && Faithful(m0, us, base, k, snap, prices)
    ensures var r := Recover(m, us, a, b, snap);
      && !r.recovering && r.bids == ApplyList(s0, us) && r.asks == Load(false, snap.asks)
      && r.lastApplied == base + |us|
      && r.replayedCount == (if k <= b then b - k else 0) && r.discardedCount == (b - a) - r.replayedCount
      && r.bufferedCount == m.bufferedCount + (b - a) && r.buffer == []
  {
    hide ApplyList, ApplyAll, Load, LoadMap, Represents, Recover;
    RecoverSteps(m, us, base, a, b, k, snap);
    RecoveredMap(m, m0, us, base, a, b, k, snap, prices);
    ApplyListRepresents(s0, m0, us, prices);
    CutPointOnMaps(m0, us, a, b, k);
    RepresentationUnique(true, Recover(m, us, a, b, snap).bids, ApplyList(s0, us), ApplyAll(m0, us));
  }

  /** Triggering recovery in any state, then recovering: whatever went wrong before leaves no trace. */
  lemma RecoveryAfterTrigger(m: Manager, s0: seq<PriceQty>, m0: Side, us: seq<Update>, base: nat,
                             a: nat, b: nat, k: nat, snap: Snapshot, prices: set<int>)
    requires a <= b <= |us| && a <= k
    requires Represents(true, s0, m0) && Faithful(m0, us, base, k, snap, prices)
    ensures var r := Recover(Trigger(m), us, a, b, snap);
      && !r.recovering && r.bids == ApplyList(s0, us) && r.asks == Load(false, snap.asks)
      && r.lastApplied == base + |us|
    ensures Incrementals(Trigger(m), us[a..b]) ==
      m.(recovering := true, buffer := us[a..b], bufferedCount := m.bufferedCount + (b - a))
  {
    hide ApplyList, Load, LoadMap, Represents, Recover, Incrementals;
    RecoveryIsCutIndependent(Trigger(m), s0, m0, us, base, a, b, k, snap, prices);
    BufferingKeeps(Trigger(m), us[a..b]);
    assert [] + us[a..b] == us[a..b];
  }

  /**
   The other half: with a snapshot older than the first buffered update, recovery still gives the
   book of every update exactly when each price that the updates in between changed is written
   again by a buffered or a live update.
   */
  lemma {:induction false} OldSnapshotExactlyWhen(m: Manager, s0: seq<PriceQty>, m0: Side, us: seq<Update>, base: nat,
                                                  a: nat, b: nat, k: nat, snap: Snapshot, prices: set<int>)
    requires m.recovering && m.buffer == [] && a <= b <= |us| && k <= a
    requires Represents(true, s0, m0) && Faithful(m0, us, base, k, snap, prices)
    ensures Recover(m, us, a, b, snap).bids == ApplyList(s0, us) <==>
      MadeUp(ApplyAll(m0, us[..k]), ApplyAll(m0, us[..a]), us[a..])
  {
    hide ApplyList, ApplyAll, Load, LoadMap, Represents, Recover, MadeUp;
    RecoveredMap(m, m0, us, base, a, b, k, snap, prices);
    ApplyListRepresents(s0, m0, us, prices);
    SkippedExactlyWhen(m0, us, a, k);
    var start := ApplyAll(m0, us[..k]);
    SplitAt(start, us[a..], b - a);
    assert us[a..][..b - a] == us[a..b] && us[a..][b - a..] == us[b..];
    SameSides(true, Recover(m, us, a, b, snap).bids, ApplyAll(start, us[a..]), ApplyList(s0, us), ApplyAll(m0, us));
  }

  /** Sorted lists are equal exactly when their maps are. */
  lemma SameSides(isBid: bool, s: seq<PriceQty>, m: Side, s': seq<PriceQty>, m': Side)
    requires Represents(isBid, s, m) && Represents(isBid, s', m')
    ensures s == s' <==> m == m'
  {
    if m == m' {
      RepresentationUnique(isBid, s, s', m);
    }
    if s == s' {
      forall p
        ensures SameAt(m, m', p)
      {
        assert p in m ==> At(s, p, m[p]);
        assert p in m' ==> At(s, p, m'[p]);
      }
      SidesEqual(m, m');
    }
  }

  // ----- Older snapshots do lose updates -----

  /** `n` numbered updates that all set price 1, except that the one after the first `k` sets price 0. */
  function Marked(base: nat, k: nat, n: nat): (us: seq<Update>)
    ensures |us| == n && Consecutive(us, base)
  {
    seq(n, i requires 0 <= i < n => Update(base + i + 1, if i == k then 0 else 1, 1, '0'))
  }

  lemma {:induction false} MarkedSide(base: nat, k: nat, n: nat, i: nat)
    requires i <= n
    ensures var side := ApplyAll(map[], Marked(base, k, n)[..i]);
      && (0 in side <==> k < i)
      && (i <= k ==> side == if i == 0 then map[] else map[1 := 1])
  {
    if i > 0 {
      MarkedSide(base, k, n, i - 1);
      assert Marked(base, k, n)[..i][..i - 1] == Marked(base, k, n)[..i - 1];
    }
  }

  /**
   `a <= k` is needed: for every snapshot number `k` before the first buffered update `a`, any
   non-empty buffer and any length of the stream there are updates of two prices only on which the
   recovered bid side differs from applying them all.
   */
  lemma OlderSnapshotLoses(m: Manager, base: nat, k: nat, a: nat, b: nat, n: nat)
    requires m.recovering && m.buffer == [] && k < a < b <= n
    ensures var us := Marked(base, k, n);
      var snap := Snapshot(base + k, if k == 0 then [] else [PriceQty(1, 1)], []);
      Faithful(map[], us, base, k, snap, {0, 1}) && Recover(m, us, a, b, snap).bids != ApplyList([], us)
  {
    hide ApplyList, Recover;
    var us := Marked(base, k, n);
    var snap := Snapshot(base + k, if k == 0 then [] else [PriceQty(1, 1)], []);
    MarkedSide(base, k, n, k);
    MarkedSide(base, k, n, a);
    assert [PriceQty(1, 1)][..0] == [];
    assert LoadMap(snap.bids) == ApplyAll(map[], us[..k]);
    assert Faithful(map[], us, base, k, snap, {0, 1});
    OldSnapshotExactlyWhen(m, [], map[], us, base, a, b, k, snap, {0, 1});
    assert !Touched(us[a..], 0);
    assert !SameAt(ApplyAll(map[], us[..k]), ApplyAll(map[], us[..a]), 0);
  }

  // ----- The replay loop -----

  lemma NothingReplayed(s: seq<PriceQty>, last: nat, lastSeq: nat)
    ensures Uncovered([], lastSeq) == [] && ApplyList(s, []) == s && LastOf([], last) == last
  {
  }

  /** One more buffered update: passed over when it is covered, applied otherwise. */
  lemma ReplayTurn(s: seq<PriceQty>, last: nat, us: seq<Update>, i: nat, lastSeq: nat)
    requires i < |us|
    ensures var before, after := Uncovered(us[..i], lastSeq), Uncovered(us[..i + 1], lastSeq);
      if us[i].seqNum <= lastSeq then after == before
      else
        && |after| == |before| + 1 && LastOf(after, last) == us[i].seqNum
        && ApplyList(s, after) == ApplyTo(ApplyList(s, before), us[i])
  {
    hide ApplyTo;
    assert us[..i + 1][..i] == us[..i];
    var before := Uncovered(us[..i], lastSeq);
    assert (before + [us[i]])[..|before|] == before;
  }

  // ----- The manager object -----

  class OrderBookRecoveryManager {
    const bids: FlatOrderBook
    const asks: FlatOrderBook
    var recovering: bool
    var lastApplied: nat
    var buffer: seq<Update>
    var bufferedCount: nat
    var replayedCount: nat
    var discardedCount: nat

    ghost predicate Valid()
      reads this, bids, asks, bids.levels, asks.levels
    {
      && bids.Valid() && asks.Valid() && bids.isBid && !asks.isBid
      && bids.levels.Length == MAX_LEVELS && asks.levels.Length == MAX_LEVELS
      && bids != asks && bids.levels != asks.levels
    }

    ghost function Model(): Manager
      reads this, bids, asks, bids.levels, asks.levels
      requires Valid()
    {
      Manager(recovering, bids.Levels(), asks.Levels(), buffer, lastApplied, bufferedCount, replayedCount, discardedCount)
    }

    constructor ()
      ensures Valid() && Model() == Manager(true, [], [], [], 0, 0, 0, 0)
      ensures bids.levels.Length == 1024 && asks.levels.Length == 1024
    {
      bids := new FlatOrderBook(true, MAX_LEVELS);
      asks := new FlatOrderBook(false, MAX_LEVELS);
      recovering, lastApplied, buffer := true, 0, [];
      bufferedCount, replayedCount, discardedCount := 0, 0, 0;
    }

    method ApplyIncremental(u: Update)
      requires Valid()
      modifies bids`count, bids.levels
      ensures Valid() && bids.Levels() == ApplyTo(old(bids.Levels()), u) && asks.Levels() == old(asks.Levels())
    {
      if u.action == '0' || u.action == '1' {
        bids.InsertOrUpdate(u.price, u.qty);
      } else if u.action == '2' {
        bids.EraseLevel(u.price);
      }
    }

    /** Buffers the update while recovering, applies it otherwise; says which. */
    method ProcessIncremental(u: Update) returns (applied: bool)
      requires Valid()
      modifies this, bids`count, bids.levels
      ensures Valid() && Model() == Incremental(old(Model()), u) && applied == !old(recovering)
    {
      if recovering {
        buffer := buffer + [u];
        bufferedCount := bufferedCount + 1;
        return false;
      }
      ApplyIncremental(u);
      lastApplied := u.seqNum;
      return true;
    }

    method LoadSide(side: FlatOrderBook, levels: seq<PriceQty>)
      requires side.Valid() && side.levels.Length == MAX_LEVELS
      modifies side, side.levels
      ensures side.Valid() && side.Levels() == Load(side.isBid, levels)
    {
      side.Clear();
      for i := 0 to |levels|
        invariant side.Valid() && side.Levels() == Load(side.isBid, levels[..i])
      {
        side.InsertOrUpdate(levels[i].price, levels[i].qty);
        assert levels[..i + 1][..i] == levels[..i];
      }
      assert levels[..|levels|] == levels;
    }

    /** Replays the buffered updates numbered above `lastSeq`. */
    method Replay(lastSeq: nat) returns (replayed: nat, discarded: nat)
      requires Valid()
      modifies this`lastApplied, bids`count, bids.levels
      ensures Valid() && asks.Levels() == old(asks.Levels())
      ensures bids.Levels() == ApplyList(old(bids.Levels()), Uncovered(buffer, lastSeq))
      ensures lastApplied == LastOf(Uncovered(buffer, lastSeq), old(lastApplied))
      ensures replayed == |Uncovered(buffer, lastSeq)| && discarded == |buffer| - replayed
    {
      hide Uncovered, ApplyList, ApplyTo;
      replayed, discarded := 0, 0;
      ghost var start, last := bids.Levels(), lastApplied;
      NothingReplayed(start, last, lastSeq);
      for i := 0 to |buffer|
        invariant Valid() && asks.Levels() == old(asks.Levels())
        invariant bids.Levels() == ApplyList(start, Uncovered(buffer[..i], lastSeq))
        invariant lastApplied == LastOf(Uncovered(buffer[..i], lastSeq), last)
        invariant replayed == |Uncovered(buffer[..i], lastSeq)| && discarded == i - replayed
      {
        ReplayTurn(start, last, buffer, i, lastSeq);
        if buffer[i].seqNum <= lastSeq {
          discarded := discarded + 1;
        } else {
          ApplyIncremental(buffer[i]);
          lastApplied := buffer[i].seqNum;
          replayed := replayed + 1;
        }
      }
      assert buffer[..|buffer|] == buffer;
    }

    method ApplySnapshot(snap: Snapshot) returns (replayed: nat)
      requires Valid()
      modifies this, bids, asks, bids.levels, asks.levels
      ensures Valid() && Model() == TakeSnapshot(old(Model()), snap) && replayed == replayedCount
    {
      hide ApplyList, Load, Uncovered;
      LoadSide(bids, snap.bids);
      LoadSide(asks, snap.asks);
      lastApplied := snap.lastSeq;
      replayedCount, discardedCount := Replay(snap.lastSeq);
      buffer := [];
      recovering := false;
      return replayedCount;
    }

    method TriggerRecovery()
      requires Valid()
      modifies this`recovering, this`buffer
      ensures Valid() && Model() == Trigger(old(Model()))
      ensures recovering && buffer == [] && bids.Levels() == old(bids.Levels()) && asks.Levels() == old(asks.Levels())
    {
      recovering := true;
      buffer := [];
    }
  }
}
