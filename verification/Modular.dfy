/** Index arithmetic of the power-of-two rings: masking is remainder, and nearby counters use different slots. */
module Modular {

  // ----- Remainders -----

  lemma QuotientUnique(n: nat, a: int, r: nat, b: int, s: nat)
    requires r < n && s < n && n * a + r == n * b + s
    ensures a == b && r == s
  {
    if a < b {
      MulGap(n, a, b);
      assert false;
    } else if b < a {
      MulGap(n, b, a);
      assert false;
    }
  }

  lemma MulGap(n: nat, a: int, b: int)
    requires a < b
    ensures n * a + n <= n * b
  {
    assert n * b == n * (a + 1) + n * (b - a - 1);
  }

  /** The remainder is the one value below `n` that differs by a multiple of `n`. */
  lemma ModUnique(x: nat, n: nat, q: int, r: nat)
    requires r < n && x == n * q + r
    ensures x % n == r
  {
    QuotientUnique(n, x / n, x % n, q, r);
  }

  /** Below two turns, the remainder is at most one subtraction. */
  lemma ModSmall(x: nat, n: nat)
    requires n > 0 && x < 2 * n
    ensures x % n == if x < n then x else x - n
  {
    if x < n {
      ModUnique(x, n, 0, x);
    } else {
      ModUnique(x, n, 1, x - n);
    }
  }

  /** Advancing a masked index by less than a full turn wraps at most once. */
  lemma ModAdd(a: nat, d: nat, n: nat)
    requires n > 0 && d <= n
    ensures (a + d) % n == (if a % n + d < n then a % n + d else a % n + d - n)
    ensures (a % n + d) % n == (a + d) % n
  {
    var q, r := a / n, a % n;
    assert a == n * q + r;
    if r + d < n {
      ModUnique(a + d, n, q, r + d);
      ModUnique(r + d, n, 0, r + d);
    } else {
      assert n * (q + 1) == n * q + n;
      ModUnique(a + d, n, q + 1, r + d - n);
      ModUnique(r + d, n, 1, r + d - n);
    }
  }

  /** Two counters less than `n` apart use different slots. */
  lemma SlotsDiffer(a: nat, b: nat, n: nat)
    requires a < b < a + n
    ensures a % n != b % n
  {
    ModAdd(a, b - a, n);
  }

  // ----- Masks -----

  /** The lowest bit of the conjunction. */
  function Bit(x: nat, y: nat): nat {
    if x % 2 == 1 && y % 2 == 1 then 1 else 0
  }

  function And(x: nat, y: nat): nat {
    if x == 0 || y == 0 then 0 else Bit(x, y) + 2 * And(x / 2, y / 2)
  }

  predicate PowerOfTwo(n: nat) {
    n == 1 || (n > 0 && n % 2 == 0 && PowerOfTwo(n / 2))
  }

  lemma {:induction false} AndSelf(x: nat)
    ensures And(x, x) == x
  {
    if x > 0 {
      AndSelf(x / 2);
    }
  }

  /** The static assertion on every capacity holds exactly for powers of two. */
  lemma {:induction false} CapacityTest(n: nat)
    requires n > 0
    ensures And(n, n - 1) == 0 <==> PowerOfTwo(n)
  {
    if n > 1 {
      if n % 2 == 0 {
        assert (n - 1) / 2 == n / 2 - 1;
        CapacityTest(n / 2);
      } else {
        assert (n - 1) / 2 == n / 2;
        AndSelf(n / 2);
      }
    }
  }

  /** Masking with a power of two less one is the remainder. */
  lemma {:induction false} MaskIsMod(x: nat, n: nat)
    requires PowerOfTwo(n)
    ensures And(x, n - 1) == x % n
  {
    if n > 1 && x > 0 {
      var m := n / 2;
      assert (n - 1) % 2 == 1 && (n - 1) / 2 == m - 1;
      MaskIsMod(x / 2, m);
      assert And(x, n - 1) == x % 2 + 2 * And(x / 2, m - 1);
      DoubleMod(x, m);
    }
  }

  lemma DoubleMod(x: nat, m: nat)
    requires m > 0
    ensures x % (2 * m) == x % 2 + 2 * ((x / 2) % m)
  {
    var q, r := (x / 2) / m, (x / 2) % m;
    assert x / 2 == m * q + r;
    assert (2 * m) * q == 2 * (m * q);
    ModUnique(x, 2 * m, q, x % 2 + 2 * r);
  }
}
