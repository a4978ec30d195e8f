/** The sequence gap detector: every number up to the expected one is either accepted or reported missing. */
module GapDetectors {

  datatype Status = InSequence | GapDetected | Duplicate

  /** A reported range of missing numbers, both ends included. */
  datatype Gap = Gap(first: nat, last: nat)

  datatype Detector = Detector(expected: nat, gaps: nat, lost: nat, duplicates: nat)

  function Check(d: Detector, s: nat): (Detector, Status, Gap) {
    if s == d.expected then (d.(expected := s + 1), InSequence, Gap(0, 0))
    else if s > d.expected then
      (d.(expected := s + 1, gaps := d.gaps + 1, lost := d.lost + (s - d.expected)), GapDetected, Gap(d.expected, s - 1))
    else (d.(duplicates := d.duplicates + 1), Duplicate, Gap(0, 0))
  }

  class SequenceGapDetector {
    var expected: nat
    var gapsDetected: nat
    var packetsLost: nat
    var duplicates: nat

    ghost function Model(): Detector
      reads this
    {
      Detector(expected, gapsDetected, packetsLost, duplicates)
    }

    constructor (initial: nat)
      ensures Model() == Detector(initial, 0, 0, 0)
    {
      expected, gapsDetected, packetsLost, duplicates := initial, 0, 0, 0;
    }

    method ProcessSequence(s: nat) returns (status: Status, gap: Gap)
      modifies this
      ensures (Model(), status, gap) == Check(old(Model()), s)
    {
      status, gap := InSequence, Gap(0, 0);
      if s == expected {
        expected := expected + 1;
      } else if s > expected {
        status, gap := GapDetected, Gap(expected, s - 1);
        gapsDetected := gapsDetected + 1;
        packetsLost := packetsLost + (s - expected);
        expected := s + 1;
      } else {
        status := Duplicate;
        duplicates := duplicates + 1;
      }
    }
  }

  // ----- Runs -----

  /** The detector with everything it has accepted and reported so far. */
  datatype Trace = Trace(d: Detector, accepted: seq<nat>, reported: seq<Gap>)

  function Extend(t: Trace, s: nat): Trace {
    var (d, status, gap) := Check(t.d, s);
    match status
    case InSequence => Trace(d, t.accepted + [s], t.reported)
    case GapDetected => Trace(d, t.accepted + [s], t.reported + [gap])
    case Duplicate => t.(d := d)
  }

  function Run(init: nat, incoming: seq<nat>): Trace {
    if incoming == [] then Trace(Detector(init, 0, 0, 0), [], [])
    else Extend(Run(init, incoming[..|incoming| - 1]), incoming[|incoming| - 1])
  }

  predicate Within(g: Gap, x: nat) {
    g.first <= x <= g.last
  }

  ghost predicate Missing(t: Trace, x: nat) {
    exists i :: 0 <= i < |t.reported| && Within(t.reported[i], x)
  }

  ghost function Size(gaps: seq<Gap>): int {
    if gaps == [] then 0
    else Size(gaps[..|gaps| - 1]) + (gaps[|gaps| - 1].last - gaps[|gaps| - 1].first + 1)
  }

  /** Accepted numbers ascend strictly, reported ranges are non-empty and ascend without touching each other's numbers. */
  ghost predicate Ascending(t: Trace) {
    && (forall i, j :: 0 <= i < j < |t.accepted| ==> t.accepted[i] < t.accepted[j])
    && (forall i :: 0 <= i < |t.reported| ==> t.reported[i].first <= t.reported[i].last)
    && (forall i, j :: 0 <= i < j < |t.reported| ==> t.reported[i].last < t.reported[j].first)
  }

  /** Exactly the numbers from `init` up to the expected one are accepted or reported missing, and never both. */
  ghost predicate Partitions(init: nat, t: Trace) {
    && init <= t.d.expected
    && (forall x: nat :: init <= x < t.d.expected <==> x in t.accepted || Missing(t, x))
    && (forall x: nat :: !(x in t.accepted && Missing(t, x)))
  }

  ghost predicate Counted(init: nat, t: Trace) {
    && t.d.gaps == |t.reported|
    && t.d.lost == Size(t.reported)
    && t.d.expected - init == |t.accepted| + t.d.lost
  }

  /** Every incoming number is accepted or counted as a duplicate. */
  lemma {:induction false} AllCounted(init: nat, incoming: seq<nat>)
    ensures var t := Run(init, incoming);
      |t.accepted| + t.d.duplicates == |incoming|
  {
    if |incoming| > 0 {
      AllCounted(init, incoming[..|incoming| - 1]);
    }
  }

  lemma MissingSnoc(t: Trace, t': Trace, g: Gap, x: nat)
    requires t'.reported == t.reported + [g]
    ensures Missing(t', x) <==> Missing(t, x) || Within(g, x)
  {
    if Missing(t, x) {
      var i :| 0 <= i < |t.reported| && Within(t.reported[i], x);
      assert Within(t'.reported[i], x);
    }
    if Within(g, x) {
      assert Within(t'.reported[|t.reported|], x);
    }
  }

  lemma ExtendPartitions(init: nat, t: Trace, s: nat)
    requires Partitions(init, t)
    ensures Partitions(init, Extend(t, s))
  {
    var t' := Extend(t, s);
    assert s >= t.d.expected ==> forall x :: x in t'.accepted <==> x in t.accepted || x == s;
    if s > t.d.expected {
      forall x: nat
        ensures Missing(t', x) <==> Missing(t, x) || t.d.expected <= x < s
      {
        MissingSnoc(t, t', Gap(t.d.expected, s - 1), x);
      }
    } else {
      assert forall x: nat :: Missing(t', x) <==> Missing(t, x);
    }
  }

  lemma ExtendAscending(init: nat, t: Trace, s: nat)
    requires Partitions(init, t) && Ascending(t)
    ensures Ascending(Extend(t, s))
  {
    assert forall i :: 0 <= i < |t.accepted| ==> t.accepted[i] in t.accepted;
    forall i | 0 <= i < |t.reported|
      ensures t.reported[i].last < t.d.expected
    {
      assert Within(t.reported[i], t.reported[i].last);
      assert Missing(t, t.reported[i].last);
    }
  }

  lemma ExtendCounted(init: nat, t: Trace, s: nat)
    requires Counted(init, t)
    ensures Counted(init, Extend(t, s))
  {
    if s > t.d.expected {
      var r := Extend(t, s).reported;
      assert r[..|r| - 1] == t.reported;
    }
  }

  /**
   Gap accounting partitions the number line: over any run, accepted numbers and reported ranges
   are pairwise disjoint and together are exactly [init, expected); packets lost is the summed
   size of the ranges.
   */
  lemma {:induction false} GapsPartition(init: nat, incoming: seq<nat>)
    ensures var t := Run(init, incoming);
      Partitions(init, t) && Ascending(t) && Counted(init, t)
  {
    if |incoming| > 0 {
      var n := |incoming| - 1;
      var t := Run(init, incoming[..n]);
      GapsPartition(init, incoming[..n]);
      ExtendPartitions(init, t, incoming[n]);
      ExtendAscending(init, t, incoming[n]);
      ExtendCounted(init, t, incoming[n]);
    }
  }

  /** The expected number is one past the largest seen, but never below the initial one. */
  lemma {:induction false} ExpectedIsPastLargest(init: nat, incoming: seq<nat>)
    ensures var e := Run(init, incoming).d.expected;
      && e >= init && (forall i :: 0 <= i < |incoming| ==> incoming[i] < e)
      && (e == init || e - 1 in incoming)
  {
    if |incoming| > 0 {
      var n := |incoming| - 1;
      ExpectedIsPastLargest(init, incoming[..n]);
      assert incoming == incoming[..n] + [incoming[n]];
    }
  }

  /**
   The verdict on a number after any run: a duplicate exactly when it is below the start, was
   accepted, or was already reported missing; a gap, reported from the first number not accounted
   for up to the one before it, exactly when it leaves such numbers out.
   */
  lemma DuplicateExactlyWhen(init: nat, incoming: seq<nat>, s: nat)
    ensures var t := Run(init, incoming);
      var (d, status, gap) := Check(t.d, s);
      && (status == Duplicate <==> s < init || s in t.accepted || Missing(t, s))
      && (status == GapDetected <==> exists x: nat :: init <= x < s && !(x in t.accepted || Missing(t, x)))
      && (status == GapDetected ==>
            forall x: nat :: Within(gap, x) <==> init <= x < s && !(x in t.accepted || Missing(t, x)))
      && (status != GapDetected ==> gap == Gap(0, 0))
  {
    var t := Run(init, incoming);
    GapsPartition(init, incoming);
    var e := t.d.expected;
    assert !(e in t.accepted || Missing(t, e));
    if s > e {
      assert init <= e < s && !(e in t.accepted || Missing(t, e));
    }
  }
}
