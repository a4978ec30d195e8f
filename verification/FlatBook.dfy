/** One side of the flat order book: a fixed array of price levels kept sorted in place. */
module FlatBooks {
  import opened Basics
  import opened PriceTime

  datatype PriceQty = PriceQty(price: int, qty: nat)

  /** First place that is not strictly better than `price`. */
  function Place(isBid: bool, s: seq<PriceQty>, price: int): (pos: nat)
    ensures pos <= |s|
    ensures pos < |s| ==> !Better(isBid, s[pos].price, price)
    ensures forall i :: 0 <= i < pos ==> Better(isBid, s[i].price, price)
  {
    if s == [] || !Better(isBid, s[0].price, price) then 0 else 1 + Place(isBid, s[1..], price)
  }

  /** Update the level at `price`, or insert it in order while there is room. */
  function Put(isBid: bool, max: nat, s: seq<PriceQty>, price: int, qty: nat): seq<PriceQty> {
    var pos := Place(isBid, s, price);
    if pos < |s| && s[pos].price == price then s[pos := PriceQty(price, qty)]
    else if |s| < max then Splice(s, pos, PriceQty(price, qty))
    else s
  }

  function Erase(isBid: bool, s: seq<PriceQty>, price: int): seq<PriceQty> {
    var pos := Place(isBid, s, price);
    if pos < |s| && s[pos].price == price then s[..pos] + s[pos + 1..] else s
  }

  ghost predicate Strict(isBid: bool, s: seq<PriceQty>) {
    forall i, j :: 0 <= i < j < |s| ==> Better(isBid, s[i].price, s[j].price)
  }

  // ----- The side as a map from price to quantity -----

  ghost predicate At(s: seq<PriceQty>, price: int, qty: nat) {
    exists i :: 0 <= i < |s| && s[i] == PriceQty(price, qty)
  }

  /** The sorted list holds exactly the levels of `m`. */
  ghost predicate Represents(isBid: bool, s: seq<PriceQty>, m: map<int, nat>) {
    && Strict(isBid, s)
    && (forall i :: 0 <= i < |s| ==> s[i].price in m && m[s[i].price] == s[i].qty)
    && (forall p :: p in m ==> At(s, p, m[p]))
  }

  /** The price is at its place or nowhere. */
  lemma PlaceFinds(isBid: bool, s: seq<PriceQty>, price: int)
    requires Strict(isBid, s)
    ensures forall i :: 0 <= i < |s| && s[i].price == price ==> i == Place(isBid, s, price)
    ensures forall i :: Place(isBid, s, price) < i < |s| ==> Better(isBid, price, s[i].price)
  {
    var pos := Place(isBid, s, price);
    assert forall i :: pos < i < |s| ==> Better(isBid, s[pos].price, s[i].price);
  }

  lemma SpliceStrict(isBid: bool, s: seq<PriceQty>, pos: nat, x: PriceQty)
    requires Strict(isBid, s) && pos <= |s|
    requires forall i :: 0 <= i < pos ==> Better(isBid, s[i].price, x.price)
    requires forall i :: pos <= i < |s| ==> Better(isBid, x.price, s[i].price)
    ensures Strict(isBid, Splice(s, pos, x))
  {
  }

  lemma PutInserts(isBid: bool, s: seq<PriceQty>, m: map<int, nat>, pos: nat, x: PriceQty)
    requires Represents(isBid, s, m) && pos <= |s| && x.price !in m
    requires forall i :: 0 <= i < pos ==> Better(isBid, s[i].price, x.price)
    requires forall i :: pos <= i < |s| ==> Better(isBid, x.price, s[i].price)
    ensures Represents(isBid, Splice(s, pos, x), m[x.price := x.qty])
  {
    hide Strict, Better;
    SpliceStrict(isBid, s, pos, x);
    var t := Splice(s, pos, x);
    var m' := m[x.price := x.qty];
    forall p | p in m'
      ensures At(t, p, m'[p])
    {
      if p == x.price {
        assert t[pos] == x;
      } else {
        assert At(s, p, m[p]);
        var i :| 0 <= i < |s| && s[i] == PriceQty(p, m[p]);
        assert t[if i < pos then i else i + 1] == s[i];
      }
    }
  }

  lemma PutUpdates(isBid: bool, s: seq<PriceQty>, m: map<int, nat>, pos: nat, x: PriceQty)
    requires Represents(isBid, s, m) && pos < |s| && s[pos].price == x.price
    ensures Represents(isBid, s[pos := x], m[x.price := x.qty])
  {
    var t := s[pos := x];
    var m' := m[x.price := x.qty];
    forall p | p in m'
      ensures At(t, p, m'[p])
    {
      if p == x.price {
        assert t[pos] == x;
      } else {
        var i :| 0 <= i < |s| && s[i] == PriceQty(p, m[p]);
        assert t[i] == s[i];
      }
    }
    PlaceFinds(isBid, s, x.price);
  }

  /** Putting a level is updating the map, as long as a new price still finds room. */
  lemma PutRepresents(isBid: bool, max: nat, s: seq<PriceQty>, m: map<int, nat>, price: int, qty: nat)
    requires Represents(isBid, s, m) && (price in m || |s| < max)
    ensures Represents(isBid, Put(isBid, max, s, price, qty), m[price := qty])
  {
    var pos := Place(isBid, s, price);
    PlaceFinds(isBid, s, price);
    if pos < |s| && s[pos].price == price {
      PutUpdates(isBid, s, m, pos, PriceQty(price, qty));
    } else {
      assert price !in m;
      PutInserts(isBid, s, m, pos, PriceQty(price, qty));
    }
  }

  /** A full side takes no new price: it stays as it is. */
  lemma PutRefused(isBid: bool, max: nat, s: seq<PriceQty>, m: map<int, nat>, price: int, qty: nat)
    requires Represents(isBid, s, m) && price !in m && |s| >= max
    ensures Put(isBid, max, s, price, qty) == s
  {
    PlaceFinds(isBid, s, price);
  }

  lemma PutStrict(isBid: bool, max: nat, s: seq<PriceQty>, price: int, qty: nat)
    requires Strict(isBid, s)
    ensures Strict(isBid, Put(isBid, max, s, price, qty))
  {
    var pos := Place(isBid, s, price);
    PlaceFinds(isBid, s, price);
  }

  lemma RemovedAt(s: seq<PriceQty>, pos: nat)
    requires pos < |s|
    ensures var t := s[..pos] + s[pos + 1..];
      && |t| == |s| - 1
      && (forall i :: 0 <= i < pos ==> t[i] == s[i])
      && (forall i :: pos < i < |s| ==> t[i - 1] == s[i])
      && (forall i :: pos <= i < |t| ==> t[i] == s[i + 1])
  {
  }

  /** Erasing a price is removing it from the map. */
  lemma EraseRepresents(isBid: bool, s: seq<PriceQty>, m: map<int, nat>, price: int)
    requires Represents(isBid, s, m)
    ensures Represents(isBid, Erase(isBid, s, price), m - {price})
  {
    var pos := Place(isBid, s, price);
    PlaceFinds(isBid, s, price);
    if pos < |s| && s[pos].price == price {
      EraseRemoves(isBid, s, m, pos);
    } else {
      assert m - {price} == m;
    }
  }

  lemma RemoveStrict(isBid: bool, s: seq<PriceQty>, pos: nat)
    requires Strict(isBid, s) && pos < |s|
    ensures Strict(isBid, s[..pos] + s[pos + 1..])
  {
    var t := s[..pos] + s[pos + 1..];
    assert forall i :: 0 <= i < |t| ==> t[i] == if i < pos then s[i] else s[i + 1];
  }

  lemma EraseStrict(isBid: bool, s: seq<PriceQty>, price: int)
    requires Strict(isBid, s)
    ensures Strict(isBid, Erase(isBid, s, price))
  {
    hide Strict;
    var pos := Place(isBid, s, price);
    if pos < |s| {
      RemoveStrict(isBid, s, pos);
    }
  }

  /** Erasing removes the level with the price, wherever a search finds it. */
  lemma ErasePlace(isBid: bool, s: seq<PriceQty>, price: int)
    requires Strict(isBid, s)
    ensures forall i :: 0 <= i < |s| && s[i].price == price ==> Erase(isBid, s, price) == s[..i] + s[i + 1..]
    ensures (forall i :: 0 <= i < |s| ==> s[i].price != price) ==> Erase(isBid, s, price) == s
  {
    hide Strict;
    PlaceFinds(isBid, s, price);
  }

  lemma EraseRemoves(isBid: bool, s: seq<PriceQty>, m: map<int, nat>, pos: nat)
    requires Represents(isBid, s, m) && pos < |s|
    ensures Represents(isBid, s[..pos] + s[pos + 1..], m - {s[pos].price})
  {
    assert forall i :: 0 <= i < |s| && i != pos ==> s[i].price != s[pos].price;
    hide Strict;
    var t := s[..pos] + s[pos + 1..];
    RemovedAt(s, pos);
    RemoveStrict(isBid, s, pos);
    forall p | p in m && p != s[pos].price
      ensures At(t, p, m[p])
    {
      var i :| 0 <= i < |s| && s[i] == PriceQty(p, m[p]);
      assert i < pos ==> t[i] == s[i];
      assert i > pos ==> t[i - 1] == s[i];
    }
    forall i | 0 <= i < |t|
      ensures t[i].price != s[pos].price && t[i].price in m && m[t[i].price] == t[i].qty
    {
      assert t[i] == if i < pos then s[i] else s[i + 1];
    }
  }

  /** A map has one sorted list: equal maps give equal books. */
  lemma {:induction false} RepresentationUnique(isBid: bool, s: seq<PriceQty>, t: seq<PriceQty>, m: map<int, nat>)
    requires Represents(isBid, s, m) && Represents(isBid, t, m)
    ensures s == t
  {
    SizeOfMap(isBid, s, m);
    SizeOfMap(isBid, t, m);
    forall i | 0 <= i < |s|
      ensures s[i] == t[i]
    {
      SamePosition(isBid, s, t, m, i);
    }
  }

  /** Position `i` is at most where the other list has the same level, both ways round. */
  /** A level of one list is in the other, and not before the place where the lists may first differ. */
  lemma FoundFrom(isBid: bool, s: seq<PriceQty>, t: seq<PriceQty>, m: map<int, nat>, i: nat) returns (a: nat)
    requires Represents(isBid, s, m) && Represents(isBid, t, m) && i < |s| && i < |t|
    requires forall k :: 0 <= k < i ==> s[k] == t[k]
    ensures i <= a < |t| && t[a] == s[i]
  {
    assert At(t, s[i].price, s[i].qty);
    a :| 0 <= a < |t| && t[a] == s[i];
    assert a < i ==> Better(isBid, s[a].price, s[i].price);
  }

  lemma {:induction false} SamePosition(isBid: bool, s: seq<PriceQty>, t: seq<PriceQty>, m: map<int, nat>, i: nat)
    requires Represents(isBid, s, m) && Represents(isBid, t, m) && i < |s| && i < |t|
    ensures s[i] == t[i]
    decreases i
  {
    forall k | 0 <= k < i
      ensures s[k] == t[k]
    {
      SamePosition(isBid, s, t, m, k);
    }
    var a := FoundFrom(isBid, s, t, m, i);
    var b := FoundFrom(isBid, t, s, m, i);
    assert i < a ==> Better(isBid, t[i].price, t[a].price);
    assert i < b ==> Better(isBid, s[i].price, s[b].price);
  }

  lemma {:induction false} SizeOfMap(isBid: bool, s: seq<PriceQty>, m: map<int, nat>)
    requires Represents(isBid, s, m)
    ensures |s| == |m|
  {
    if s == [] {
      assert forall p :: p !in m;
      assert m == map[];
    } else {
      var n := |s| - 1;
      EraseRemoves(isBid, s, m, n);
      assert s[..n] + s[n + 1..] == s[..n];
      SizeOfMap(isBid, s[..n], m - {s[n].price});
      assert m.Keys == (m - {s[n].price}).Keys + {s[n].price};
    }
  }

  // ----- The array -----

  class FlatOrderBook {
    const isBid: bool
    const levels: array<PriceQty>
    var count: nat

    ghost predicate Valid()
      reads this, levels
    {
      count <= levels.Length && Strict(isBid, levels[..count])
    }

    ghost function Levels(): seq<PriceQty>
      reads this, levels
      requires count <= levels.Length
    {
      levels[..count]
    }

    constructor (isBid: bool, max: nat)
      ensures Valid() && Levels() == [] && levels.Length == max && fresh(levels) && this.isBid == isBid
    {
      this.isBid := isBid;
      levels := new PriceQty[max](_ => PriceQty(0, 0));
      count := 0;
    }

    method Clear()
      modifies this
      ensures Valid() && Levels() == []
    {
      count := 0;
    }

    /** Shifts the levels from `pos` on one place down. */
    method ShiftDown(pos: nat)
      requires pos <= count < levels.Length
      modifies levels
      ensures forall i :: 0 <= i < pos ==> levels[i] == old(levels[i])
      ensures forall i :: pos < i <= count ==> levels[i] == old(levels[i - 1])
    {
      var j := count;
      while j > pos
        modifies levels
        invariant pos <= j <= count
        invariant forall i :: 0 <= i <= j ==> levels[i] == old(levels[i])
        invariant forall i :: j < i <= count ==> levels[i] == old(levels[i - 1])
      {
        levels[j] := levels[j - 1];
        j := j - 1;
      }
    }

    /** Makes room at `pos` and writes the new level there. */
    method InsertAt(pos: nat, x: PriceQty)
      requires pos <= count < levels.Length
      modifies levels, this`count
      ensures count == old(count) + 1
      ensures levels[..count] == Splice(old(levels[..count]), pos, x)
    {
      ShiftDown(pos);
      levels[pos] := x;
      count := count + 1;
    }

    method InsertOrUpdate(price: int, qty: nat)
      requires Valid()
      modifies this`count, levels
      ensures Valid()
      ensures Levels() == Put(isBid, levels.Length, old(Levels()), price, qty)
    {
      PutStrict(isBid, levels.Length, levels[..count], price, qty);
      ghost var s := levels[..count];
      var i := 0;
      while i < count
        invariant 0 <= i <= count && levels[..count] == s && count == |s|
        invariant forall k :: 0 <= k < i ==> Better(isBid, s[k].price, price)
      {
        if levels[i].price == price {
          PlaceIs(isBid, s, price, i);
          levels[i] := PriceQty(price, qty);
          return;
        }
        if Better(isBid, price, levels[i].price) {
          PlaceIs(isBid, s, price, i);
          if count < levels.Length {
            InsertAt(i, PriceQty(price, qty));
          }
          return;
        }
        i := i + 1;
      }
      PlaceIs(isBid, s, price, count);
      if count < levels.Length {
        InsertAt(count, PriceQty(price, qty));
      }
    }

    /** Shifts the levels behind `pos` one place up. */
    method RemoveAt(pos: nat)
      requires pos < count <= levels.Length
      modifies levels, this`count
      ensures count == old(count) - 1
      ensures levels[..count] == old(levels[..count])[..pos] + old(levels[..count])[pos + 1..]
    {
      ghost var s := levels[..count];
      for j := pos to count - 1
        modifies levels
        invariant forall i :: 0 <= i < pos ==> levels[i] == s[i]
        invariant forall i :: pos <= i < j ==> levels[i] == s[i + 1]
        invariant forall i :: j <= i < count ==> levels[i] == s[i]
      {
        levels[j] := levels[j + 1];
      }
      count := count - 1;
    }

    method EraseLevel(price: int)
      requires Valid()
      modifies this`count, levels
      ensures Valid()
      ensures Levels() == Erase(isBid, old(Levels()), price)
    {
      hide Strict;
      ghost var s := levels[..count];
      EraseStrict(isBid, s, price);
      ErasePlace(isBid, s, price);
      for i := 0 to count
        invariant levels[..count] == s && count == |s|
        invariant forall k :: 0 <= k < i ==> s[k].price != price
      {
        if levels[i].price == price {
          RemoveAt(i);
          return;
        }
      }
    }
  }

  lemma {:induction false} PlaceIs(isBid: bool, s: seq<PriceQty>, price: int, pos: nat)
    requires pos <= |s|
    requires forall i :: 0 <= i < pos ==> Better(isBid, s[i].price, price)
    requires pos < |s| ==> !Better(isBid, s[pos].price, price)
    ensures pos == Place(isBid, s, price)
  {
    if pos > 0 {
      PlaceIs(isBid, s[1..], price, pos - 1);
    }
  }
}
