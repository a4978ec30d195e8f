/** The dual-feed arbitrator: a masked window of recently seen numbers against the set of all numbers seen. */
module FeedArbitrators {
  import opened Modular

  datatype Line = LineA | LineB

  datatype Packet = Packet(line: Line, num: nat)

  datatype Arbiter = Arbiter(seen: seq<nat>, winners: seq<Line>, unique: nat, duplicates: nat, aWins: nat, bWins: nat)

  datatype Verdict = Verdict(duplicate: bool, winner: Line)

  function Arbitrate(a: Arbiter, p: Packet): (Arbiter, Verdict)
    requires |a.seen| > 0 && |a.winners| == |a.seen|
  {
    var idx := p.num % |a.seen|;
    if a.seen[idx] == p.num then
      (a.(duplicates := a.duplicates + 1), Verdict(true, a.winners[idx]))
    else
      var a' := a.(seen := a.seen[idx := p.num], winners := a.winners[idx := p.line], unique := a.unique + 1);
      (if p.line == LineA then a'.(aWins := a.aWins + 1) else a'.(bWins := a.bWins + 1), Verdict(false, p.line))
  }

  class FeedArbitrator {
    const seen: array<nat>
    const winners: array<Line>
    var unique: nat
    var duplicates: nat
    var aWins: nat
    var bWins: nat

    ghost function Model(): Arbiter
      reads this, seen, winners
    {
      Arbiter(seen[..], winners[..], unique, duplicates, aWins, bWins)
    }

    ghost predicate Valid() {
      seen.Length > 0 && winners.Length == seen.Length
    }

    constructor (window: nat)
      requires window > 0
      ensures Valid() && Model() == Fresh(window) && seen.Length == window && fresh(seen) && fresh(winners)
    {
      seen := new nat[window](_ => 0);
      winners := new Line[window](_ => LineA);
      unique, duplicates, aWins, bWins := 0, 0, 0, 0;
      new;
      assert seen[..] == Fresh(window).seen && winners[..] == Fresh(window).winners;
    }

    method ProcessPacket(line: Line, num: nat) returns (v: Verdict)
      requires Valid()
      modifies this, seen, winners
      ensures (Model(), v) == Arbitrate(old(Model()), Packet(line, num))
    {
      var idx := num % seen.Length;
      if seen[idx] == num {
        v := Verdict(true, winners[idx]);
        duplicates := duplicates + 1;
      } else {
        v := Verdict(false, line);
        seen[idx] := num;
        winners[idx] := line;
        if line == LineA {
          aWins := aWins + 1;
        } else {
          bWins := bWins + 1;
        }
        unique := unique + 1;
      }
    }
  }

  // ----- Runs -----

  function Fresh(window: nat): Arbiter {
    Arbiter(seq(window, _ => 0), seq(window, _ => LineA), 0, 0, 0, 0)
  }

  function Run(window: nat, stream: seq<Packet>): (a: Arbiter)
    requires window > 0
    ensures |a.seen| == window && |a.winners| == window
  {
    if stream == [] then Fresh(window)
    else Arbitrate(Run(window, stream[..|stream| - 1]), stream[|stream| - 1]).0
  }

  function Verdict'(window: nat, stream: seq<Packet>, p: Packet): Verdict
    requires window > 0
  {
    Arbitrate(Run(window, stream), p).1
  }

  /** The most recent number to arrive at slot `r`, zero if none has. */
  ghost function Latest(window: nat, stream: seq<Packet>, r: nat): nat
    requires window > 0
  {
    if stream == [] then 0
    else if stream[|stream| - 1].num % window == r then stream[|stream| - 1].num
    else Latest(window, stream[..|stream| - 1], r)
  }

  ghost predicate Arrived(stream: seq<Packet>, num: nat) {
    exists i :: 0 <= i < |stream| && stream[i].num == num
  }

  lemma {:induction false} SeenIsLatest(window: nat, stream: seq<Packet>, r: nat)
    requires window > 0 && r < window
    ensures Run(window, stream).seen[r] == Latest(window, stream, r)
  {
    if |stream| > 0 {
      SeenIsLatest(window, stream[..|stream| - 1], r);
    }
  }

  /** On every stream, a packet is flagged exactly when the latest number at its slot is its own. */
  lemma FlaggedExactlyWhen(window: nat, stream: seq<Packet>, p: Packet)
    requires window > 0
    ensures Verdict'(window, stream, p).duplicate <==> Latest(window, stream, p.num % window) == p.num
  {
    SeenIsLatest(window, stream, p.num % window);
  }

  /** The latest number at a slot arrived, and nothing else arrived at that slot after it. */
  lemma {:induction false} LatestArrival(window: nat, stream: seq<Packet>, j: nat) returns (k: nat)
    requires window > 0 && j < |stream|
    ensures j <= k < |stream| && stream[k].num % window == stream[j].num % window
    ensures stream[k].num == Latest(window, stream, stream[j].num % window)
  {
    var n := |stream| - 1;
    if stream[n].num % window == stream[j].num % window {
      k := n;
    } else {
      k := LatestArrival(window, stream[..n], j);
    }
  }

  lemma {:induction false} LatestIsArrived(window: nat, stream: seq<Packet>, r: nat)
    requires window > 0 && Latest(window, stream, r) > 0
    ensures Arrived(stream, Latest(window, stream, r)) && Latest(window, stream, r) % window == r
  {
    var n := |stream| - 1;
    if stream[n].num % window == r {
      assert stream[n].num == Latest(window, stream, r);
    } else {
      LatestIsArrived(window, stream[..n], r);
      var i :| 0 <= i < n && stream[..n][i].num == Latest(window, stream[..n], r);
      assert stream[i].num == Latest(window, stream, r);
    }
  }

  /** Every number is positive and exceeds everything before it less the window. */
  ghost predicate Windowed(window: nat, stream: seq<Packet>) {
    && (forall i :: 0 <= i < |stream| ==> stream[i].num > 0)
    && (forall i, j :: 0 <= i < j < |stream| ==> stream[j].num + window > stream[i].num)
  }

  lemma SameSlotSameNumber(window: nat, a: nat, b: nat)
    requires window > 0 && a % window == b % window && a < b + window && b < a + window
    ensures a == b
  {
    if a < b {
      SlotsDiffer(a, b, window);
    } else if b < a {
      SlotsDiffer(b, a, window);
    }
  }

  /** On a windowed stream the arbitrator is a set of all numbers seen: flagged iff it arrived before. */
  lemma FlaggedIffArrived(window: nat, stream: seq<Packet>, p: Packet)
    requires window > 0 && Windowed(window, stream + [p])
    ensures Verdict'(window, stream, p).duplicate <==> Arrived(stream, p.num)
  {
    var all := stream + [p];
    assert all[|stream|] == p;
    assert forall i :: 0 <= i < |stream| ==> all[i] == stream[i];
    FlaggedExactlyWhen(window, stream, p);
    if Arrived(stream, p.num) {
      var j :| 0 <= j < |stream| && stream[j].num == p.num;
      var k := LatestArrival(window, stream, j);
      assert all[k].num + window > all[j].num || k == j;
      assert all[|stream|].num + window > all[k].num;
      SameSlotSameNumber(window, stream[k].num, p.num);
    }
    if Latest(window, stream, p.num % window) == p.num {
      LatestIsArrived(window, stream, p.num % window);
    }
  }

  /**
   Without the window condition a repeat can slip through, whatever the window: number 1 again,
   after the number one window further on has taken its slot.
   */
  lemma RepeatCanSlipThrough(window: nat, first: Line, second: Line, third: Line)
    requires window > 0
    ensures var stream := [Packet(first, 1), Packet(second, 1 + window)];
      Arrived(stream, 1) && !Verdict'(window, stream, Packet(third, 1)).duplicate
  {
    var stream := [Packet(first, 1), Packet(second, 1 + window)];
    assert stream[0].num == 1;
    ModUnique(1 + window, window, 1 + 1 / window, 1 % window);
    FlaggedExactlyWhen(window, stream, Packet(third, 1));
  }

  /** On any positive stream the verdict is wrong exactly when the number arrived before but has lost its slot since. */
  lemma WrongExactlyWhen(window: nat, stream: seq<Packet>, p: Packet)
    requires window > 0 && p.num > 0
    ensures (Verdict'(window, stream, p).duplicate <==> Arrived(stream, p.num)) <==>
      !(Arrived(stream, p.num) && Latest(window, stream, p.num % window) != p.num)
  {
    FlaggedExactlyWhen(window, stream, p);
    if Latest(window, stream, p.num % window) == p.num {
      LatestIsArrived(window, stream, p.num % window);
    }
  }

  ghost function FromLine(stream: seq<Packet>, line: Line): nat {
    if stream == [] then 0
    else FromLine(stream[..|stream| - 1], line) + (if stream[|stream| - 1].line == line then 1 else 0)
  }

  /** On every stream each packet is counted once, and each unique one for the line that delivered it. */
  lemma {:induction false} CountsAddUp(window: nat, stream: seq<Packet>)
    requires window > 0
    ensures var a := Run(window, stream);
      && a.unique + a.duplicates == |stream| && a.unique == a.aWins + a.bWins
      && a.aWins <= FromLine(stream, LineA) && a.bWins <= FromLine(stream, LineB)
  {
    if |stream| > 0 {
      CountsAddUp(window, stream[..|stream| - 1]);
    }
  }

  // ----- Winners and counts on windowed streams -----

  /** The line that delivered a number first. */
  ghost function FirstLine(stream: seq<Packet>, num: nat): Line
    requires Arrived(stream, num)
  {
    var n := |stream| - 1;
    if Arrived(stream[..n], num) then FirstLine(stream[..n], num) else stream[n].line
  }

  ghost function Numbers(stream: seq<Packet>): set<nat> {
    set i | 0 <= i < |stream| :: stream[i].num
  }

  lemma ArrivedSnoc(stream: seq<Packet>, num: nat)
    requires stream != []
    ensures var n := |stream| - 1;
      Arrived(stream, num) <==> Arrived(stream[..n], num) || stream[n].num == num
  {
    var n := |stream| - 1;
    if Arrived(stream[..n], num) {
      var i :| 0 <= i < n && stream[..n][i].num == num;
      assert stream[i].num == num;
    }
    if Arrived(stream, num) {
      var i :| 0 <= i < |stream| && stream[i].num == num;
      assert i < n ==> stream[..n][i].num == num;
    }
  }

  lemma NumbersSnoc(stream: seq<Packet>)
    requires stream != []
    ensures var n := |stream| - 1;
      && Numbers(stream) == Numbers(stream[..n]) + {stream[n].num}
      && (stream[n].num in Numbers(stream[..n]) <==> Arrived(stream[..n], stream[n].num))
  {
    var n := |stream| - 1;
    assert forall i :: 0 <= i < n ==> stream[..n][i] == stream[i];
  }

  /** Each slot remembers the line that first delivered the number it holds. */
  ghost predicate WinnersKnown(window: nat, stream: seq<Packet>)
    requires window > 0
  {
    forall r :: 0 <= r < window && Latest(window, stream, r) > 0 ==>
      && Arrived(stream, Latest(window, stream, r))
      && Run(window, stream).winners[r] == FirstLine(stream, Latest(window, stream, r))
  }

  ghost predicate Tallied(window: nat, stream: seq<Packet>)
    requires window > 0
  {
    var a := Run(window, stream);
    a.unique == |Numbers(stream)| == a.aWins + a.bWins && a.unique + a.duplicates == |stream|
  }

  lemma WindowedPrefix(window: nat, stream: seq<Packet>)
    requires stream != [] && Windowed(window, stream)
    ensures Windowed(window, stream[..|stream| - 1])
    ensures stream == stream[..|stream| - 1] + [stream[|stream| - 1]]
  {
  }

  lemma TallyStep(window: nat, stream: seq<Packet>)
    requires window > 0 && stream != [] && Windowed(window, stream) && Tallied(window, stream[..|stream| - 1])
    ensures Tallied(window, stream)
  {
    hide Latest, Windowed;
    var n := |stream| - 1;
    WindowedPrefix(window, stream);
    FlaggedIffArrived(window, stream[..n], stream[n]);
    NumbersSnoc(stream);
  }

  lemma WinnersStep(window: nat, stream: seq<Packet>, r: nat)
    requires window > 0 && stream != [] && Windowed(window, stream) && WinnersKnown(window, stream[..|stream| - 1])
    requires r < window && Latest(window, stream, r) > 0
    ensures Arrived(stream, Latest(window, stream, r))
    ensures Run(window, stream).winners[r] == FirstLine(stream, Latest(window, stream, r))
  {
    var n := |stream| - 1;
    WindowedPrefix(window, stream);
    FlaggedIffArrived(window, stream[..n], stream[n]);
    FlaggedExactlyWhen(window, stream[..n], stream[n]);
    ArrivedSnoc(stream, Latest(window, stream, r));
  }

  /**
   On every windowed stream: unique count, distinct numbers and the two lines' wins agree, and
   every slot credits the line that was first.
   */
  lemma {:induction false} WindowedRun(window: nat, stream: seq<Packet>)
    requires window > 0 && Windowed(window, stream)
    ensures Tallied(window, stream) && WinnersKnown(window, stream)
  {
    if stream == [] {
      assert Numbers(stream) == {};
    } else {
      WindowedPrefix(window, stream);
      WindowedRun(window, stream[..|stream| - 1]);
      TallyStep(window, stream);
      forall r | 0 <= r < window && Latest(window, stream, r) > 0
        ensures Arrived(stream, Latest(window, stream, r))
        ensures Run(window, stream).winners[r] == FirstLine(stream, Latest(window, stream, r))
      {
        WinnersStep(window, stream, r);
      }
    }
  }

  /** The reported winner of every packet is the line of the number's first arrival, itself included. */
  lemma WinnerIsFirstLine(window: nat, stream: seq<Packet>, p: Packet)
    requires window > 0 && Windowed(window, stream + [p])
    ensures Arrived(stream + [p], p.num)
    ensures Verdict'(window, stream, p).winner == FirstLine(stream + [p], p.num)
  {
    var all := stream + [p];
    WindowedPrefix(window, all);
    assert all[..|stream|] == stream && all[|stream|] == p;
    ArrivedSnoc(all, p.num);
    WindowedRun(window, stream);
    FlaggedIffArrived(window, stream, p);
    FlaggedExactlyWhen(window, stream, p);
  }
}
